/** The short-URL registry of src/services/urlService.ts, stated on values.

    `State` is the pair of fields the `UrlService` object owns: the map from
    shortcode to entry and the set of shortcodes that callers asked for
    explicitly. Each operation that changes the registry is a function from
    the old state (and its inputs) to a result and a new state; the class in
    url_service.dfy is proved to compute exactly these functions, and the
    lemmas below state what the service promises about them.

    Collaborators the source calls but that are not part of this model are
    parameters: `isUrl` stands for `validator.isURL(url, {protocols: ['http',
    'https']})`, `lookup` for `geoip.lookup`, `draws` for the successive
    results of `nanoid(6)`, `id` for the result of `nanoid()`, and `now` for
    the current time in milliseconds. */
module Registry {
  import opened Wrappers
  import opened Types

  const MillisPerMinute: int := 60 * 1000
  const DefaultValidityMinutes: int := 30
  const MinShortcodeLength: nat := 3
  const MaxShortcodeLength: nat := 20
  const GeneratedShortcodeLength: nat := 6
  /** The largest distance from the epoch, in milliseconds, that a JavaScript
      `Date` can hold; `new Date(t)` beyond it is an Invalid Date. */
  const MaxTimeValue: int := 8640000000000000

  datatype State = State(urls: map<string, ShortUrl>, customShortcodes: set<string>)

  /** The errors `createShortUrl` throws, in the order it checks for them:
      "Invalid URL format", "Invalid shortcode format. Must be alphanumeric
      and 3-20 characters long", "Shortcode already exists", and the
      `RangeError` "Invalid time value" that `toISOString` raises when the
      expiry is not a valid Date. `GenerationExhausted` stands for the case
      where every supplied draw collides (the source retries forever). */
  datatype CreateError =
    | InvalidUrlFormat
    | InvalidShortcodeFormat
    | ShortcodeAlreadyExists
    | InvalidTimeValue
    | GenerationExhausted

  /** What a successful create hands back: the final shortcode and its expiry. */
  datatype Created = Created(shortcode: string, expiresAt: int)

  /** The character class `[a-zA-Z0-9]`. */
  predicate IsAlphanumeric(c: char) {
    ('a' <= c <= 'z') || ('A' <= c <= 'Z') || ('0' <= c <= '9')
  }

  /** How many characters of the class `[a-zA-Z0-9]` the text starts with:
      how far the regular expression's repetition can run from the start. */
  function AlnumRun(s: string): (n: nat)
    ensures n <= |s|
    ensures forall i :: 0 <= i < n ==> IsAlphanumeric(s[i])
    ensures n < |s| ==> !IsAlphanumeric(s[n])
  {
    if s != [] && IsAlphanumeric(s[0]) then 1 + AlnumRun(s[1..]) else 0
  }

  /** `isValidShortcode`: the anchored regular expression
      `^[a-zA-Z0-9]{3,20}$` matches exactly when the character class runs to
      the end of the text and the text has 3 to 20 characters. */
  function IsValidShortcode(code: string): (valid: bool)
    ensures valid <==> MinShortcodeLength <= |code| <= MaxShortcodeLength && AlnumRun(code) == |code|
  {
    && MinShortcodeLength <= |code| <= MaxShortcodeLength
    && forall i :: 0 <= i < |code| ==> IsAlphanumeric(code[i])
  }

  /** A time value that `new Date` turns into a valid Date. */
  predicate IsValidTime(t: int) {
    -MaxTimeValue <= t <= MaxTimeValue
  }

  /** The expiry test of the source, `now > expiresAt` on Dates: strictly
      after the expiry, and never for an Invalid Date, since every comparison
      with its NaN time value is false. */
  predicate IsExpired(e: ShortUrl, now: int) {
    IsValidTime(e.expiresAt) && now > e.expiresAt
  }

  /** The collision test used for custom codes and generated codes alike. */
  predicate InUse(s: State, code: string) {
    code in s.customShortcodes || code in s.urls
  }

  /** `if (shortcode)`: JavaScript treats a missing and an empty shortcode alike. */
  predicate IsRequested(shortcode: Option<string>) {
    shortcode.Some? && shortcode.value != ""
  }

  /** A validity given by the caller must be a positive number of minutes
      (the route's guard before it calls the service). */
  predicate ValidValidity(validity: Option<int>) {
    validity.Some? ==> validity.value > 0
  }

  ghost predicate EntryInv(code: string, e: ShortUrl) {
    && e.shortcode == code
    && e.clickCount == |e.clicks|
    && e.createdAt < e.expiresAt
    && IsValidTime(e.expiresAt)
  }

  /** The registry invariant: every explicitly requested code is stored, each
      entry is filed under its own shortcode, its click counter equals the
      number of recorded clicks, and it expires, as a valid Date, after it
      was created. Under it the custom-code set adds nothing to the
      collision test: a code is in use exactly when it is stored. */
  ghost predicate Inv(s: State): (ok: bool)
    ensures ok ==> forall code :: InUse(s, code) <==> code in s.urls
  {
    && s.customShortcodes <= s.urls.Keys
    && forall k :: k in s.urls ==> EntryInv(k, s.urls[k])
  }

  function ExpiryOf(now: int, validity: Option<int>): (t: int)
    requires ValidValidity(validity)
    ensures t > now
    ensures validity.None? ==> t == now + DefaultValidityMinutes * MillisPerMinute
  {
    now + validity.GetOr(DefaultValidityMinutes) * MillisPerMinute
  }

  function NewEntry(id: string, code: string, url: string, now: int, validity: Option<int>): (e: ShortUrl)
    requires ValidValidity(validity)
    requires IsValidTime(ExpiryOf(now, validity))
    ensures EntryInv(code, e) && e.clicks == [] && e.clickCount == 0
  {
    ShortUrl(id, code, url, now, ExpiryOf(now, validity), 0, [])
  }

  /** Index of the first draw at or after `i` that is not in use: the
      do-while loop of `generateUniqueShortcode`, with retries bounded by the
      supplied draws. */
  function FirstFreshFrom(s: State, draws: seq<string>, i: nat): (r: Option<nat>)
    requires i <= |draws|
    ensures r.Some? ==> i <= r.value < |draws| && !InUse(s, draws[r.value])
    ensures r.Some? ==> forall j :: i <= j < r.value ==> InUse(s, draws[j])
    ensures r.None? <==> forall j :: i <= j < |draws| ==> InUse(s, draws[j])
    decreases |draws| - i
  {
    if i == |draws| then None
    else if !InUse(s, draws[i]) then Some(i)
    else FirstFreshFrom(s, draws, i + 1)
  }

  /** The shortcode `createShortUrl` settles on, or the error that stops it
      first: URL syntax, then custom-code syntax, then collision. */
  function ChooseCode(s: State, url: string, shortcode: Option<string>, draws: seq<string>,
                      isUrl: string -> bool): (r: Result<string, CreateError>)
    ensures !isUrl(url) ==> r == Failure(InvalidUrlFormat)
    ensures r.Success? ==> !InUse(s, r.value)
    ensures r.Success? && IsRequested(shortcode) ==> r.value == shortcode.value && IsValidShortcode(r.value)
    ensures r.Success? && !IsRequested(shortcode) ==> r.value in draws
  {
    if !isUrl(url) then Failure(InvalidUrlFormat)
    else if IsRequested(shortcode) then
      if !IsValidShortcode(shortcode.value) then Failure(InvalidShortcodeFormat)
      else if InUse(s, shortcode.value) then Failure(ShortcodeAlreadyExists)
      else Success(shortcode.value)
    else
      match FirstFreshFrom(s, draws, 0)
      case None => Failure(GenerationExhausted)
      case Some(i) => Success(draws[i])
  }

  /** `createShortUrl`, with the expiry checked before anything is stored:
      every failure leaves the registry as it was. The source as written
      checks the expiry last, after it has stored the entry
      (`CreateAsWritten`). */
  function Create(s: State, url: string, validity: Option<int>, shortcode: Option<string>,
                  now: int, id: string, draws: seq<string>, isUrl: string -> bool)
    : (out: (Result<Created, CreateError>, State))
    requires ValidValidity(validity)
    ensures out.0.Failure? <==> out.1 == s
    ensures !isUrl(url) ==> out.0 == Failure(InvalidUrlFormat)
    ensures out.0.Success? ==> out.0.value.shortcode !in s.urls
    ensures out.0.Success? ==> out.0.value.expiresAt == ExpiryOf(now, validity)
    ensures out.0.Success? ==> IsValidTime(out.0.value.expiresAt)
  {
    match ChooseCode(s, url, shortcode, draws, isUrl)
    case Failure(e) => (Failure(e), s)
    case Success(code) =>
      if !IsValidTime(ExpiryOf(now, validity)) then (Failure(InvalidTimeValue), s)
      else
        var entry := NewEntry(id, code, url, now, validity);
        var custom := if IsRequested(shortcode) then s.customShortcodes + {code} else s.customShortcodes;
        (Success(Created(code, entry.expiresAt)), State(s.urls[code := entry], custom))
  }

  /** `createShortUrl` as written: the custom code is reserved and the entry
      stored before the expiry is rendered with `toISOString`, which throws
      when the expiry is an Invalid Date. It agrees with `Create` whenever the
      expiry is a valid Date; otherwise it fails and still changes the
      registry. */
  function CreateAsWritten(s: State, url: string, validity: Option<int>, shortcode: Option<string>,
                           now: int, id: string, draws: seq<string>, isUrl: string -> bool)
    : (out: (Result<Created, CreateError>, State))
    requires ValidValidity(validity)
    ensures IsValidTime(ExpiryOf(now, validity)) || ChooseCode(s, url, shortcode, draws, isUrl).Failure? ==>
      out == Create(s, url, validity, shortcode, now, id, draws, isUrl)
    ensures ChooseCode(s, url, shortcode, draws, isUrl).Success? && !IsValidTime(ExpiryOf(now, validity)) ==>
      var code := ChooseCode(s, url, shortcode, draws, isUrl).value;
      && out.0 == Failure(InvalidTimeValue)
      && code !in s.urls
      && out.1.urls == s.urls[code := ShortUrl(id, code, url, now, ExpiryOf(now, validity), 0, [])]
      && out.1.customShortcodes == (if IsRequested(shortcode) then s.customShortcodes + {code} else s.customShortcodes)
  {
    match ChooseCode(s, url, shortcode, draws, isUrl)
    case Failure(e) => (Failure(e), s)
    case Success(code) =>
      var entry := ShortUrl(id, code, url, now, ExpiryOf(now, validity), 0, []);
      var custom := if IsRequested(shortcode) then s.customShortcodes + {code} else s.customShortcodes;
      var s' := State(s.urls[code := entry], custom);
      if IsValidTime(entry.expiresAt) then (Success(Created(code, entry.expiresAt)), s')
      else (Failure(InvalidTimeValue), s')
  }

  /** The address is looked up only when present, non-empty and not a
      loopback address. */
  predicate IsGeoCandidate(ip: Option<string>) {
    ip.Some? && ip.value != "" && ip.value != "::1" && ip.value != "127.0.0.1"
  }

  function LocationFor(ip: Option<string>, lookup: string -> Option<Location>): (loc: Option<Location>)
    ensures loc.Some? <==> IsGeoCandidate(ip) && lookup(ip.value).Some?
    ensures loc.Some? ==> loc == lookup(ip.value)
  {
    if IsGeoCandidate(ip) then lookup(ip.value) else None
  }

  function NewClick(now: int, ip: Option<string>, referrer: Option<string>, userAgent: Option<string>,
                    lookup: string -> Option<Location>): ClickData
  {
    ClickData(now, referrer, userAgent, ip, LocationFor(ip, lookup))
  }

  /** `getOriginalUrl`: a miss (absent or expired code) changes nothing; a hit
      appends one click and bumps the counter of that entry only. */
  function Resolve(s: State, code: string, now: int, ip: Option<string>, referrer: Option<string>,
                   userAgent: Option<string>, lookup: string -> Option<Location>)
    : (out: (Option<string>, State))
    ensures out.0.None? <==> code !in s.urls || IsExpired(s.urls[code], now)
    ensures out.0.None? ==> out.1 == s
    ensures out.0.Some? ==> out.0.value == s.urls[code].originalUrl
    ensures out.1.urls.Keys == s.urls.Keys && out.1.customShortcodes == s.customShortcodes
  {
    if code !in s.urls || IsExpired(s.urls[code], now) then (None, s)
    else
      var e := s.urls[code];
      var click := NewClick(now, ip, referrer, userAgent, lookup);
      var e' := e.(clicks := e.clicks + [click], clickCount := e.clickCount + 1);
      (Some(e.originalUrl), State(s.urls[code := e'], s.customShortcodes))
  }

  function ExpiredCodes(s: State, now: int): (codes: set<string>)
    ensures codes <= s.urls.Keys
  {
    set k | k in s.urls && IsExpired(s.urls[k], now)
  }

  /** `cleanupExpiredUrls`: drops every expired entry from both fields and
      reports how many entries it dropped. */
  function Cleanup(s: State, now: int): (out: (nat, State))
    ensures forall k :: k in out.1.urls <==> k in s.urls && !IsExpired(s.urls[k], now)
    ensures out.0 == |s.urls| - |out.1.urls|
  {
    var gone := ExpiredCodes(s, now);
    var kept := s.urls - gone;
    assert kept.Keys == s.urls.Keys - gone;
    SubsetCardinality(s.urls.Keys, gone);
    (|gone|, State(kept, s.customShortcodes - gone))
  }

  // ---------------------------------------------------------------------
  // Properties of create

  /** A failed create is rejected in the order of the source (URL first,
      then custom-code syntax, then collision, then an expiry that is not a
      valid Date) and leaves the state as it was. */
  lemma CreateErrors(s: State, url: string, validity: Option<int>, shortcode: Option<string>,
                     now: int, id: string, draws: seq<string>, isUrl: string -> bool)
    requires ValidValidity(validity)
    ensures !isUrl(url) ==>
      Create(s, url, validity, shortcode, now, id, draws, isUrl) == (Failure(InvalidUrlFormat), s)
    ensures isUrl(url) && IsRequested(shortcode) && !IsValidShortcode(shortcode.value) ==>
      Create(s, url, validity, shortcode, now, id, draws, isUrl) == (Failure(InvalidShortcodeFormat), s)
    ensures isUrl(url) && IsRequested(shortcode) && IsValidShortcode(shortcode.value) && InUse(s, shortcode.value) ==>
      Create(s, url, validity, shortcode, now, id, draws, isUrl) == (Failure(ShortcodeAlreadyExists), s)
    ensures ChooseCode(s, url, shortcode, draws, isUrl).Success? && !IsValidTime(ExpiryOf(now, validity)) ==>
      Create(s, url, validity, shortcode, now, id, draws, isUrl) == (Failure(InvalidTimeValue), s)
    ensures isUrl(url) && !IsRequested(shortcode) && (forall i :: 0 <= i < |draws| ==> InUse(s, draws[i])) ==>
      Create(s, url, validity, shortcode, now, id, draws, isUrl) == (Failure(GenerationExhausted), s)
  {
  }

  /** A successful create adds exactly one fresh entry, with no clicks,
      created now and expiring `validity` minutes (default 30) later; it
      records the code as custom exactly when the caller asked for it, and
      every entry stored before is left as it was. */
  lemma CreateSuccess(s: State, url: string, validity: Option<int>, shortcode: Option<string>,
                      now: int, id: string, draws: seq<string>, isUrl: string -> bool)
    requires ValidValidity(validity)
    requires forall i :: 0 <= i < |draws| ==> |draws[i]| == GeneratedShortcodeLength
    requires Create(s, url, validity, shortcode, now, id, draws, isUrl).0.Success?
    ensures var (res, s') := Create(s, url, validity, shortcode, now, id, draws, isUrl);
      var code := res.value.shortcode;
      && isUrl(url)
      && !InUse(s, code)
      && s'.urls == s.urls[code := ShortUrl(id, code, url, now, res.value.expiresAt, 0, [])]
      && res.value.expiresAt == now + validity.GetOr(DefaultValidityMinutes) * MillisPerMinute
      && IsValidTime(res.value.expiresAt)
      && |s'.urls| == |s.urls| + 1
      && (forall k :: k in s.urls ==> k in s'.urls && s'.urls[k] == s.urls[k])
      && (IsRequested(shortcode) ==> code == shortcode.value && s'.customShortcodes == s.customShortcodes + {code})
      && (!IsRequested(shortcode) ==> |code| == GeneratedShortcodeLength && s'.customShortcodes == s.customShortcodes)
  {
    var (res, s') := Create(s, url, validity, shortcode, now, id, draws, isUrl);
    var code := res.value.shortcode;
    assert s'.urls.Keys == s.urls.Keys + {code};
  }

  /** Create keeps the registry invariant. */
  lemma CreatePreservesInv(s: State, url: string, validity: Option<int>, shortcode: Option<string>,
                           now: int, id: string, draws: seq<string>, isUrl: string -> bool)
    requires Inv(s) && ValidValidity(validity)
    ensures Inv(Create(s, url, validity, shortcode, now, id, draws, isUrl).1)
  {
    var (res, s') := Create(s, url, validity, shortcode, now, id, draws, isUrl);
    if res.Success? {
      var code := res.value.shortcode;
      forall k | k in s'.urls ensures EntryInv(k, s'.urls[k]) {
        if k != code { assert s'.urls[k] == s.urls[k]; }
      }
    }
  }

  // ---------------------------------------------------------------------
  // Properties of resolve

  /** A hit on a live code appends exactly one click carrying the request's
      referrer, user agent and address, increments the counter by one, and
      touches no other entry; the invariant is kept. */
  lemma ResolveHit(s: State, code: string, now: int, ip: Option<string>, referrer: Option<string>,
                   userAgent: Option<string>, lookup: string -> Option<Location>)
    requires Inv(s)
    requires code in s.urls && !IsExpired(s.urls[code], now)
    ensures var (r, s') := Resolve(s, code, now, ip, referrer, userAgent, lookup);
      var e, e' := s.urls[code], s'.urls[code];
      && r == Some(e.originalUrl)
      && e'.clicks == e.clicks + [ClickData(now, referrer, userAgent, ip, LocationFor(ip, lookup))]
      && e'.clickCount == e.clickCount + 1 == |e'.clicks|
      && e' == e.(clicks := e'.clicks, clickCount := e'.clickCount)
      && (forall k :: k in s.urls && k != code ==> s'.urls[k] == s.urls[k])
      && Inv(s')
  {
    var (r, s') := Resolve(s, code, now, ip, referrer, userAgent, lookup);
    forall k | k in s'.urls ensures EntryInv(k, s'.urls[k]) {
      if k != code { assert s'.urls[k] == s.urls[k]; }
    }
  }

  /** Resolve keeps the registry invariant whether it hits or misses. */
  lemma ResolvePreservesInv(s: State, code: string, now: int, ip: Option<string>, referrer: Option<string>,
                            userAgent: Option<string>, lookup: string -> Option<Location>)
    requires Inv(s)
    ensures Inv(Resolve(s, code, now, ip, referrer, userAgent, lookup).1)
  {
    if code in s.urls && !IsExpired(s.urls[code], now) {
      ResolveHit(s, code, now, ip, referrer, userAgent, lookup);
    }
  }

  /** Resolving an expired code misses but keeps the entry stored (the source
      leaves eviction to the sweep), and an entry is still served at exactly
      its expiry instant. */
  lemma ResolveExpiryBoundary(s: State, code: string, ip: Option<string>, referrer: Option<string>,
                              userAgent: Option<string>, lookup: string -> Option<Location>)
    requires Inv(s) && code in s.urls
    ensures var t := s.urls[code].expiresAt;
      && Resolve(s, code, t, ip, referrer, userAgent, lookup).0 == Some(s.urls[code].originalUrl)
      && Resolve(s, code, t + 1, ip, referrer, userAgent, lookup) == (None, s)
      && code in Resolve(s, code, t + 1, ip, referrer, userAgent, lookup).1.urls
  {
  }

  /** Creating an entry and resolving it before it expires serves the target
      and records the first click of the new entry. */
  lemma CreateThenResolve(s: State, url: string, validity: Option<int>, shortcode: Option<string>,
                          now: int, id: string, draws: seq<string>, isUrl: string -> bool,
                          later: int, ip: Option<string>, referrer: Option<string>,
                          userAgent: Option<string>, lookup: string -> Option<Location>)
    requires ValidValidity(validity)
    requires Create(s, url, validity, shortcode, now, id, draws, isUrl).0.Success?
    requires now <= later <= Create(s, url, validity, shortcode, now, id, draws, isUrl).0.value.expiresAt
    ensures var (res, s1) := Create(s, url, validity, shortcode, now, id, draws, isUrl);
      var (r, s2) := Resolve(s1, res.value.shortcode, later, ip, referrer, userAgent, lookup);
      && r == Some(url)
      && s2.urls[res.value.shortcode].clickCount == 1
      && |s2.urls[res.value.shortcode].clicks| == 1
  {
  }

  // ---------------------------------------------------------------------
  // Properties of cleanup

  lemma {:induction false} SubsetCardinality(a: set<string>, b: set<string>)
    requires b <= a
    ensures |a - b| == |a| - |b|
    decreases |b|
  {
    if b != {} {
      var x :| x in b;
      SubsetCardinality(a - {x}, b - {x});
      assert (a - {x}) - (b - {x}) == a - b;
    }
  }

  /** Beyond the keys it keeps, cleanup leaves every surviving entry as it
      was and drops from `customShortcodes` exactly the expired codes. */
  lemma CleanupRemovesExactlyExpired(s: State, now: int)
    ensures var s' := Cleanup(s, now).1;
      && (forall k :: k in s'.urls ==> s'.urls[k] == s.urls[k])
      && (forall k :: k in s'.customShortcodes <==> k in s.customShortcodes && !(k in s.urls && IsExpired(s.urls[k], now)))
  {
  }

  /** After a cleanup no stored entry is expired at the same instant. */
  lemma CleanupLeavesOnlyLive(s: State, now: int)
    ensures var s' := Cleanup(s, now).1;
      forall k :: k in s'.urls ==> !IsExpired(s'.urls[k], now)
  {
  }

  /** A second cleanup at the same instant removes nothing and changes nothing. */
  lemma CleanupIdempotent(s: State, now: int)
    ensures var s' := Cleanup(s, now).1;
      Cleanup(s', now) == (0, s')
  {
    var s' := Cleanup(s, now).1;
    CleanupLeavesOnlyLive(s, now);
    assert ExpiredCodes(s', now) == {};
    assert s'.urls - {} == s'.urls;
    assert s'.customShortcodes - {} == s'.customShortcodes;
  }

  /** Cleanup keeps the registry invariant, in particular that every custom
      code is stored. */
  lemma CleanupPreservesInv(s: State, now: int)
    requires Inv(s)
    ensures Inv(Cleanup(s, now).1)
  {
    var s' := Cleanup(s, now).1;
    forall k | k in s'.urls ensures EntryInv(k, s'.urls[k]) {
      assert s'.urls[k] == s.urls[k];
    }
  }

  /** Cleanup frees an expired custom code: it is no longer in use, so the
      same code can be requested again and the generator may hand it out. */
  lemma CleanupFreesCustomCode(s: State, now: int, code: string)
    requires Inv(s)
    requires code in s.customShortcodes && IsExpired(s.urls[code], now)
    ensures !InUse(Cleanup(s, now).1, code)
  {
  }

  // ---------------------------------------------------------------------
  // The source's create on a validity beyond the Date range

  /** With a validity of 200000000000 minutes the expiry lies beyond the
      Date range. Create as written then reports an error, yet it has
      reserved the custom code and stored the entry; that entry has an
      Invalid Date as its expiry, so it is never expired: resolve serves it
      at any later time, cleanup never removes it, and the registry
      invariant no longer holds. */
  lemma OutOfRangeValidityLeavesEntry(s: State, url: string, now: int, id: string, draws: seq<string>,
                                      isUrl: string -> bool, later: int, lookup: string -> Option<Location>)
    requires isUrl(url) && !InUse(s, "abcdef")
    requires 0 <= now <= MaxTimeValue
    ensures var (res, s') := CreateAsWritten(s, url, Some(200000000000), Some("abcdef"), now, id, draws, isUrl);
      && res == Failure(InvalidTimeValue)
      && s' != s
      && "abcdef" in s'.customShortcodes
      && Resolve(s', "abcdef", later, None, None, None, lookup).0 == Some(url)
      && "abcdef" in Cleanup(s', later).1.urls
      && !Inv(s')
  {
    var code := "abcdef";
    assert IsValidShortcode(code) by {
      forall i | 0 <= i < |code| ensures IsAlphanumeric(code[i]) { }
    }
    var (res, s') := CreateAsWritten(s, url, Some(200000000000), Some(code), now, id, draws, isUrl);
    assert !IsValidTime(ExpiryOf(now, Some(200000000000)));
    assert s'.urls[code].expiresAt == ExpiryOf(now, Some(200000000000));
    assert !EntryInv(code, s'.urls[code]);
  }
}

/** The `UrlService` object of src/services/urlService.ts: one sequential
    registry whose two fields are updated in place. Each method that changes
    the registry is proved to compute the corresponding function of module
    Registry on the object's state, and to keep the registry invariant; the
    two reads are specified directly against the fields. */
module Service {
  import opened Wrappers
  import opened Types
  import opened Registry

  /** What `createShortUrl` returns: the full short link and the expiry. */
  datatype CreateResponse = CreateResponse(shortLink: string, expiry: int)

  function ShortLink(baseUrl: string, code: string): string {
    baseUrl + "/" + code
  }

  function ToResponse(res: Result<Created, CreateError>, baseUrl: string): Result<CreateResponse, CreateError> {
    match res
    case Success(c) => Success(CreateResponse(ShortLink(baseUrl, c.shortcode), c.expiresAt))
    case Failure(e) => Failure(e)
  }

  class UrlService {
    var urls: map<string, ShortUrl>
    var customShortcodes: set<string>

    function Abstract(): State
      reads this
    {
      State(urls, customShortcodes)
    }

    ghost predicate Valid()
      reads this
    {
      Inv(Abstract())
    }

    constructor ()
      ensures Valid()
      ensures urls == map[] && customShortcodes == {}
    {
      urls := map[];
      customShortcodes := {};
    }

    method CreateShortUrl(url: string, validity: Option<int>, shortcode: Option<string>, baseUrl: string,
                          now: int, id: string, draws: seq<string>, isUrl: string -> bool)
      returns (r: Result<CreateResponse, CreateError>)
      requires Valid()
      requires ValidValidity(validity)
      requires forall i :: 0 <= i < |draws| ==> |draws[i]| == GeneratedShortcodeLength
      modifies this
      ensures Valid()
      ensures var (res, s') := Create(old(Abstract()), url, validity, shortcode, now, id, draws, isUrl);
        Abstract() == s' && r == ToResponse(res, baseUrl)
    {
      CreatePreservesInv(Abstract(), url, validity, shortcode, now, id, draws, isUrl);
      if !isUrl(url) {
        return Failure(InvalidUrlFormat);
      }
      var finalShortcode: string;
      if shortcode.Some? && shortcode.value != "" {
        var code := shortcode.value;
        if !IsValidShortcode(code) {
          return Failure(InvalidShortcodeFormat);
        }
        if code in customShortcodes || code in urls {
          return Failure(ShortcodeAlreadyExists);
        }
        finalShortcode := code;
      } else {
        var generated := GenerateUniqueShortcode(draws);
        if generated.None? {
          return Failure(GenerationExhausted);
        }
        finalShortcode := generated.value;
      }
      var expiresAt := now + validity.GetOr(DefaultValidityMinutes) * MillisPerMinute;
      // The expiry is checked before the code is reserved, so that a failure
      // changes nothing (the source reserves first: Registry.CreateAsWritten).
      if !IsValidTime(expiresAt) {
        return Failure(InvalidTimeValue);
      }
      if shortcode.Some? && shortcode.value != "" {
        customShortcodes := customShortcodes + {finalShortcode};
      }
      var entry := ShortUrl(id, finalShortcode, url, now, expiresAt, 0, []);
      urls := urls[finalShortcode := entry];
      r := Success(CreateResponse(ShortLink(baseUrl, finalShortcode), expiresAt));
    }

    method GetOriginalUrl(shortcode: string, now: int, ip: Option<string>, referrer: Option<string>,
                          userAgent: Option<string>, lookup: string -> Option<Location>)
      returns (r: Option<string>)
      requires Valid()
      modifies this
      ensures Valid()
      ensures (r, Abstract()) == Resolve(old(Abstract()), shortcode, now, ip, referrer, userAgent, lookup)
    {
      ResolvePreservesInv(Abstract(), shortcode, now, ip, referrer, userAgent, lookup);
      if shortcode !in urls {
        return None;
      }
      var shortUrl := urls[shortcode];
      if IsExpired(shortUrl, now) {
        return None;
      }
      var location: Option<Location> := None;
      if ip.Some? && ip.value != "" && ip.value != "::1" && ip.value != "127.0.0.1" {
        location := lookup(ip.value);
      }
      var clickData := ClickData(now, referrer, userAgent, ip, location);
      shortUrl := shortUrl.(clicks := shortUrl.clicks + [clickData]);
      shortUrl := shortUrl.(clickCount := shortUrl.clickCount + 1);
      urls := urls[shortcode := shortUrl];
      r := Some(shortUrl.originalUrl);
    }

    /** A read: the stored entry, expired or not. */
    method GetUrlStats(shortcode: string) returns (r: Option<ShortUrl>)
      requires Valid()
      ensures r.Some? <==> shortcode in urls
      ensures r.Some? ==> r.value == urls[shortcode] && r.value.shortcode == shortcode
      ensures r.Some? ==> r.value.clickCount == |r.value.clicks|
    {
      if shortcode !in urls {
        return None;
      }
      r := Some(urls[shortcode]);
    }

    /** A read: every stored entry once, expired or not. */
    method GetAllUrls() returns (list: seq<ShortUrl>)
      requires Valid()
      ensures |list| == |urls|
      ensures forall i :: 0 <= i < |list| ==> list[i].shortcode in urls && urls[list[i].shortcode] == list[i]
      ensures forall i, j :: 0 <= i < j < |list| ==> list[i].shortcode != list[j].shortcode
      ensures forall k :: k in urls ==> urls[k] in list
    {
      list := [];
      var todo := urls.Keys;
      ghost var done: set<string> := {};
      while todo != {}
        invariant todo !! done && todo + done == urls.Keys
        invariant Lists(urls, list, done)
        decreases todo
      {
        var k :| k in todo;
        ListStep(urls, list, done, k);
        list := list + [urls[k]];
        todo := todo - {k};
        done := done + {k};
      }
    }

    /** The do-while retry loop: draws candidates until one is in neither
        field. */
    method GenerateUniqueShortcode(draws: seq<string>) returns (code: Option<string>)
      requires forall i :: 0 <= i < |draws| ==> |draws[i]| == GeneratedShortcodeLength
      ensures code.Some? ==> |code.value| == GeneratedShortcodeLength
      ensures code.Some? ==> code.value !in urls && code.value !in customShortcodes
      ensures code == match FirstFreshFrom(Abstract(), draws, 0) case Some(i) => Some(draws[i]) case None => None
    {
      var i := 0;
      while i < |draws| && (draws[i] in urls || draws[i] in customShortcodes)
        invariant 0 <= i <= |draws|
        invariant forall j :: 0 <= j < i ==> InUse(Abstract(), draws[j])
      {
        i := i + 1;
      }
      if i == |draws| {
        return None;
      }
      code := Some(draws[i]);
    }

    /** The sweep makes no demand on the registry; started from a valid one,
        it leaves a valid one. */
    method CleanupExpiredUrls(now: int) returns (cleaned: nat)
      modifies this
      ensures old(Valid()) ==> Valid()
      ensures (cleaned, Abstract()) == Cleanup(old(Abstract()), now)
    {
      ghost var s0 := Abstract();
      var todo := urls.Keys;
      ghost var removed: set<string> := {};
      cleaned := 0;
      while todo != {}
        invariant Sweeping(s0, now, todo, removed, Abstract())
        invariant cleaned == |removed|
        decreases todo
      {
        var k :| k in todo;
        SweepStep(s0, now, todo, removed, Abstract(), k);
        var shortUrl := urls[k];
        if IsExpired(shortUrl, now) {
          urls := urls - {k};
          customShortcodes := customShortcodes - {k};
          removed := removed + {k};
          cleaned := cleaned + 1;
        }
        todo := todo - {k};
      }
      SweepDone(s0, now, removed, Abstract());
      if old(Valid()) {
        CleanupPreservesInv(s0, now);
      }
    }
  }

  /** Midway through the sweep that started from `s0`: the codes still to
      visit are `todo`, and `removed` holds exactly the visited codes whose
      entries were expired; they are gone from both fields of `s`, and every
      other entry is as it was. */
  ghost predicate Sweeping(s0: State, now: int, todo: set<string>, removed: set<string>, s: State) {
    && todo <= s0.urls.Keys
    && (forall x :: x in removed <==> x in s0.urls && x !in todo && IsExpired(s0.urls[x], now))
    && s.urls.Keys == s0.urls.Keys - removed
    && (forall x :: x in s.urls ==> s.urls[x] == s0.urls[x])
    && s.customShortcodes == s0.customShortcodes - removed
  }

  /** Visiting one more code: an expired entry is deleted from both fields,
      a live one is kept. */
  lemma SweepStep(s0: State, now: int, todo: set<string>, removed: set<string>, s: State, k: string)
    requires Sweeping(s0, now, todo, removed, s) && k in todo
    ensures k in s.urls && k !in removed
    ensures IsExpired(s.urls[k], now) ==>
      Sweeping(s0, now, todo - {k}, removed + {k}, State(s.urls - {k}, s.customShortcodes - {k}))
    ensures !IsExpired(s.urls[k], now) ==> Sweeping(s0, now, todo - {k}, removed, s)
  {
  }

  /** Once every code is visited, the removed codes are the expired ones and
      the state is the one `Registry.Cleanup` describes. */
  lemma SweepDone(s0: State, now: int, removed: set<string>, s: State)
    requires Sweeping(s0, now, {}, removed, s)
    ensures removed == ExpiredCodes(s0, now)
    ensures (|removed|, s) == Cleanup(s0, now)
  {
    assert s.urls == s0.urls - removed;
  }

  /** `list` holds the entries stored under the codes in `done`, each once. */
  ghost predicate Lists(urls: map<string, ShortUrl>, list: seq<ShortUrl>, done: set<string>) {
    && |list| == |done|
    && (forall i :: 0 <= i < |list| ==> list[i].shortcode in done && list[i].shortcode in urls && urls[list[i].shortcode] == list[i])
    && (forall i, j :: 0 <= i < j < |list| ==> list[i].shortcode != list[j].shortcode)
    && (forall k :: k in done ==> k in urls && urls[k] in list)
  }

  /** Appending the entry of one more stored code keeps the listing. */
  lemma ListStep(urls: map<string, ShortUrl>, list: seq<ShortUrl>, done: set<string>, k: string)
    requires Lists(urls, list, done)
    requires k in urls && k !in done && urls[k].shortcode == k
    ensures Lists(urls, list + [urls[k]], done + {k})
  {
    var list' := list + [urls[k]];
    assert forall i :: 0 <= i < |list| ==> list'[i] == list[i];
    assert forall x :: x in list ==> x in list';
  }

  /** Creating a short URL on a fresh service and following it before it
      expires redirects to the target and counts one click. */
  method CreateThenRedirect(url: string, validity: Option<int>, shortcode: Option<string>,
                            now: int, later: int, draws: seq<string>, isUrl: string -> bool,
                            lookup: string -> Option<Location>)
    returns (created: Result<CreateResponse, CreateError>, target: Option<string>, clicks: nat)
    requires ValidValidity(validity)
    requires forall i :: 0 <= i < |draws| ==> |draws[i]| == GeneratedShortcodeLength
    requires now <= later <= now + validity.GetOr(DefaultValidityMinutes) * MillisPerMinute
    ensures created.Success? <==> isUrl(url) && (IsRequested(shortcode) ==> IsValidShortcode(shortcode.value))
                                  && (!IsRequested(shortcode) ==> draws != [])
                                  && IsValidTime(ExpiryOf(now, validity))
    ensures created.Success? ==> target == Some(url) && clicks == 1
  {
    var service := new UrlService();
    var code: string;
    created := service.CreateShortUrl(url, validity, shortcode, "", now, "id", draws, isUrl);
    if created.Failure? {
      return created, None, 0;
    }
    code := if IsRequested(shortcode) then shortcode.value else draws[0];
    target := service.GetOriginalUrl(code, later, None, None, None, lookup);
    clicks := 0;
    var stats := service.GetUrlStats(code);
    if stats.Some? {
      clicks := stats.value.clickCount;
    }
  }
}

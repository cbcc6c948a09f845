/** The records stored by the short-URL service (src/types/index.ts).
    Instants are integer milliseconds since the epoch. `expiresAt` is the
    time value handed to `new Date`; outside the Date range the source's
    Date is invalid (see Registry.IsValidTime). The ISO-8601 rendering of
    Dates is not modelled. */
module Types {
  import opened Wrappers

  /** Coarse geolocation of a click's source address. */
  datatype Location = Location(country: Option<string>, region: Option<string>, city: Option<string>)

  /** One recorded redirect. */
  datatype ClickData = ClickData(
    timestamp: int,
    referrer: Option<string>,
    userAgent: Option<string>,
    ip: Option<string>,
    location: Option<Location>)

  /** One registered short URL. `clickCount` is kept beside `clicks` exactly
      as the source keeps it; the registry invariant ties the two together. */
  datatype ShortUrl = ShortUrl(
    id: string,
    shortcode: string,
    originalUrl: string,
    createdAt: int,
    expiresAt: int,
    clickCount: nat,
    clicks: seq<ClickData>)
}

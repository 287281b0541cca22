/** Cookie normalisation: a cookie exported by a browser extension, as a JSON
    object, becomes a Playwright cookie with defaults filled in and its
    `sameSite` attribute normalised; the app builds a smaller record with the
    same defaults for its browser context. */
module CookieConversion {
  import opened Text

  /** A cookie object of the export file; each None is a key that is absent. */
  datatype CookieJson = CookieJson(
    name: Option<string>, value: Option<string>, domain: Option<string>,
    path: Option<string>, expirationDate: Option<int>,
    httpOnly: Option<bool>, secure: Option<bool>, sameSite: Option<string>)

  datatype PlaywrightCookie = PlaywrightCookie(
    name: string, value: string, domain: string, path: string,
    expires: int, httpOnly: bool, secure: bool, sameSite: string)

  /** The cookie record the app hands to its browser context: no expiry and
      no `sameSite`, and name, value and domain passed on even when absent. */
  datatype ContextCookie = ContextCookie(
    name: Option<string>, value: Option<string>, domain: Option<string>,
    path: string, secure: bool, httpOnly: bool)

  const DefaultPath := "/"
  const NoExpiry := -1

  /** `c.get(key, default)` */
  function GetOr<T>(o: Option<T>, default: T): T {
    if o.Some? then o.value else default
  }

  /** The three values Playwright accepts for `sameSite`. */
  predicate ValidSameSite(s: string) {
    s == "Strict" || s == "Lax" || s == "None"
  }

  /** Absent and "no_restriction" become "None", "lax" and "strict" their
      capitalised forms, and every other value "Lax". */
  function NormalizeSameSite(s: Option<string>): (r: string)
    ensures ValidSameSite(r)
    ensures r == "None" <==> s == None || s == Some("no_restriction")
    ensures r == "Strict" <==> s == Some("strict")
    ensures r == "Lax" <==> s.Some? && s.value != "no_restriction" && s.value != "strict"
  {
    match s
    case None => "None"
    case Some(v) =>
      if v == "no_restriction" then "None"
      else if v == "lax" then "Lax"
      else if v == "strict" then "Strict"
      else "Lax"
  }

  /** `convert_cookie`: Err(key) is the KeyError raised for the first of
      name, value and domain that is absent. */
  function ConvertCookie(c: CookieJson): (r: Result<PlaywrightCookie, string>)
    ensures r.Ok? <==> c.name.Some? && c.value.Some? && c.domain.Some?
    ensures r.Err? ==> r.error == (if c.name.None? then "name" else if c.value.None? then "value" else "domain")
    ensures r.Ok? ==> && r.value.name == c.name.value && r.value.value == c.value.value
                      && r.value.domain == c.domain.value
                      && (c.path.Some? ==> r.value.path == c.path.value)
                      && (c.path.None? ==> r.value.path == DefaultPath)
                      && (c.expirationDate.Some? ==> r.value.expires == c.expirationDate.value)
                      && (c.expirationDate.None? ==> r.value.expires == NoExpiry)
                      && (r.value.httpOnly <==> c.httpOnly == Some(true))
                      && (r.value.secure <==> c.secure == Some(true))
                      && r.value.sameSite == NormalizeSameSite(c.sameSite)
                      && ValidSameSite(r.value.sameSite)
  {
    if c.name.None? then Err("name")
    else if c.value.None? then Err("value")
    else if c.domain.None? then Err("domain")
    else Ok(PlaywrightCookie(
      c.name.value, c.value.value, c.domain.value,
      GetOr(c.path, DefaultPath),
      if c.expirationDate.Some? then c.expirationDate.value else NoExpiry,
      GetOr(c.httpOnly, false), GetOr(c.secure, false),
      NormalizeSameSite(c.sameSite)))
  }

  /** `[convert_cookie(c) for c in cookies]`: the first KeyError aborts the
      whole conversion. */
  function ConvertAll(cookies: seq<CookieJson>): (r: Result<seq<PlaywrightCookie>, string>)
    ensures r.Ok? <==> forall k :: 0 <= k < |cookies| ==> ConvertCookie(cookies[k]).Ok?
    ensures r.Ok? ==> |r.value| == |cookies|
    ensures r.Ok? ==> forall k :: 0 <= k < |cookies| ==> Ok(r.value[k]) == ConvertCookie(cookies[k])
    ensures r.Err? ==> exists k :: 0 <= k < |cookies| && ConvertCookie(cookies[k]) == Err(r.error)
                                   && forall j :: 0 <= j < k ==> ConvertCookie(cookies[j]).Ok?
  {
    if cookies == [] then Ok([])
    else match ConvertCookie(cookies[0])
      case Err(key) => Err(key)
      case Ok(first) =>
        match ConvertAll(cookies[1..])
        case Err(key) => Err(key)
        case Ok(rest) => Ok([first] + rest)
  }

  /** The record built for `context.add_cookies` from an uploaded cookie. */
  function ContextCookieOf(c: CookieJson): (r: ContextCookie)
    ensures r.name == c.name && r.value == c.value && r.domain == c.domain
    ensures r.path == if c.path.Some? then c.path.value else DefaultPath
    ensures r.secure <==> c.secure == Some(true)
    ensures r.httpOnly <==> c.httpOnly == Some(true)
  {
    ContextCookie(c.name, c.value, c.domain, GetOr(c.path, DefaultPath),
                  GetOr(c.secure, false), GetOr(c.httpOnly, false))
  }

  /** The two normalisations agree on every field they share. */
  lemma {:induction false} ContextCookieAgrees(c: CookieJson)
    requires ConvertCookie(c).Ok?
    ensures var p, q := ConvertCookie(c).value, ContextCookieOf(c);
      q == ContextCookie(Some(p.name), Some(p.value), Some(p.domain), p.path, p.secure, p.httpOnly)
  {
  }

  /** The export format's spelling of a Playwright cookie: the reference
      inverse of ConvertCookie. */
  function ChromeExport(p: PlaywrightCookie): (c: CookieJson)
    ensures c.name.Some? && c.value.Some? && c.domain.Some?
  {
    CookieJson(Some(p.name), Some(p.value), Some(p.domain), Some(p.path),
               Some(p.expires), Some(p.httpOnly), Some(p.secure),
               Some(if p.sameSite == "None" then "no_restriction"
                    else if p.sameSite == "Strict" then "strict" else "lax"))
  }

  /** Every well-formed Playwright cookie comes back unchanged from its
      export, and converting is idempotent through an export. */
  lemma {:induction false} ConvertRoundTrip(p: PlaywrightCookie)
    requires ValidSameSite(p.sameSite)
    ensures ConvertCookie(ChromeExport(p)) == Ok(p)
  {
  }

  lemma {:induction false} ConvertStable(c: CookieJson)
    requires ConvertCookie(c).Ok?
    ensures ConvertCookie(ChromeExport(ConvertCookie(c).value)) == ConvertCookie(c)
  {
    ConvertRoundTrip(ConvertCookie(c).value);
  }
}

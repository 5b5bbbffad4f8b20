// CookieUtil: the JWT cookie the server sets, deletes and reads back. The
// servlet request becomes its Origin header and its cookies, the response
// becomes the list of cookies added to it, and `java.net.URI` parsing of
// the origin becomes a parameter.

module Cookies {
  import opened Nullable
  import opened JavaLang

  const JwtCookieName := "jwt"
  const JwtCookiePath := "/"
  const SameSitePolicy := "Lax"

  /** The `jwt.*` configuration CookieUtil reads; a missing domain is
      `null`. */
  datatype JwtProperties = JwtProperties(expiration: int, secure: bool, domain: Option<string>)

  datatype Cookie = Cookie(
    name: string,
    value: Option<string>,
    httpOnly: bool,
    secure: bool,
    path: string,
    maxAge: int,
    sameSite: string,
    domain: Option<string>)

  /** What the request gives CookieUtil: the Origin header and the cookie
      array, each possibly null. */
  datatype Request = Request(origin: Option<string>, cookies: Option<seq<Cookie>>)

  /** `new URI(origin).getHost()`: a syntax error, a URI without a host, or
      the host. */
  datatype UriHost = Unparsable | NoHost | Host(host: string)

  /** `isLocalhost`: null is not local; the four loopback and wildcard
      spellings and three private-network prefixes are. */
  function IsLocalhost(host: Option<string>): (r: bool)
    ensures host.None? ==> !r
    ensures host.Some? ==>
              (r <==> || host.value in {"localhost", "127.0.0.1", "0.0.0.0", "::1"}
                      || StartsWith(host.value, "192.168.")
                      || StartsWith(host.value, "10.")
                      || StartsWith(host.value, "172.16."))
  {
    match host
    case None => false
    case Some(h) =>
      || h == "localhost" || h == "127.0.0.1" || h == "0.0.0.0" || h == "::1"
      || StartsWith(h, "192.168.") || StartsWith(h, "10.") || StartsWith(h, "172.16.")
  }

  /** `extractBaseDomain`: the configured domain when the host ends with
      it, as plain text with no label boundary. A null host gives null; a
      null configured domain makes `endsWith` throw, which `determineDomain`
      turns into null as well. */
  function ExtractBaseDomain(props: JwtProperties, host: Option<string>): (r: Option<string>)
    ensures r.Some? <==> host.Some? && props.domain.Some? && EndsWith(host.value, props.domain.value)
    ensures r.Some? ==> r == props.domain
  {
    if host.None? || props.domain.None? then None
    else if EndsWith(host.value, props.domain.value) then props.domain
    else None
  }

  /** `determineDomain`: null for a null origin, an origin `URI` rejects,
      or a local host; otherwise the base domain. */
  function DetermineDomain(props: JwtProperties, parseHost: string -> UriHost, origin: Option<string>)
    : (r: Option<string>)
    ensures origin.None? ==> r.None?
    ensures origin.Some? && parseHost(origin.value).Unparsable? ==> r.None?
    ensures r.Some? ==> && origin.Some? && parseHost(origin.value).Host?
                        && !IsLocalhost(Some(parseHost(origin.value).host))
                        && r == props.domain
                        && EndsWith(parseHost(origin.value).host, r.value)
  {
    match origin
    case None => None
    case Some(o) =>
      match parseHost(o)
      case Unparsable => None
      case NoHost => None
      case Host(h) => if IsLocalhost(Some(h)) then None else ExtractBaseDomain(props, Some(h))
  }

  /** `determineSecure`, in order: a null origin takes the configured
      flag, an origin on plain-HTTP localhost or 127.0.0.1 is not secure,
      an HTTPS origin is, and anything else takes the configured flag. */
  function DetermineSecure(props: JwtProperties, origin: Option<string>): (r: bool)
    ensures origin.None? ==> r == props.secure
    ensures origin.Some? && (StartsWith(origin.value, "http://localhost") || StartsWith(origin.value, "http://127.0.0.1"))
            ==> !r
    ensures origin.Some? && StartsWith(origin.value, "https://") ==> r
    ensures (origin.Some? && !StartsWith(origin.value, "https://") && !StartsWith(origin.value, "http://localhost")
             && !StartsWith(origin.value, "http://127.0.0.1")) ==> r == props.secure
  {
    match origin
    case None => props.secure
    case Some(o) =>
      if StartsWith(o, "http://localhost") || StartsWith(o, "http://127.0.0.1") then
        assert !StartsWith(o, "https://") by { assert o[4] == ':'; }
        false
      else if StartsWith(o, "https://") then true
      else props.secure
  }

  /** `createCookie`: HttpOnly, the origin's Secure flag, the path, the
      Max-Age and SameSite=Lax; the Domain only when there is a non-empty
      one. */
  function CreateCookie(props: JwtProperties, parseHost: string -> UriHost, name: string, value: Option<string>,
                        maxAge: int, path: string, request: Request): (c: Cookie)
    ensures c.name == name && c.value == value && c.maxAge == maxAge && c.path == path
    ensures c.httpOnly && c.sameSite == SameSitePolicy
    ensures c.secure == DetermineSecure(props, request.origin)
    ensures c.domain.Some? ==> |c.domain.value| > 0 && c.domain == DetermineDomain(props, parseHost, request.origin)
  {
    var domain := DetermineDomain(props, parseHost, request.origin);
    Cookie(name, value, true, DetermineSecure(props, request.origin), path, maxAge, SameSitePolicy,
           if domain.Some? && |domain.value| > 0 then domain else None)
  }

  /** `(int) (expiration / 1000)`: the token lifetime in whole seconds,
      truncated toward zero, narrowed to 32 bits. */
  function MaxAgeSeconds(expirationMillis: int): (s: int)
    ensures IsInt32(s)
    ensures 0 <= expirationMillis < 1000 * (INT_MAX + 1) ==> s * 1000 <= expirationMillis < (s + 1) * 1000
  {
    WrapInt32(TruncDiv(expirationMillis, 1000))
  }

  /** `createJwtCookie`: the token under the name "jwt" on path "/", kept
      for the configured lifetime. */
  function CreateJwtCookie(props: JwtProperties, parseHost: string -> UriHost, token: string, request: Request)
    : (c: Cookie)
    ensures c.name == JwtCookieName && c.value == Some(token) && c.path == JwtCookiePath
    ensures c.maxAge == MaxAgeSeconds(props.expiration)
  {
    CreateCookie(props, parseHost, JwtCookieName, Some(token), MaxAgeSeconds(props.expiration), JwtCookiePath, request)
  }

  /** `deleteJwtCookie`: no value and Max-Age 0, which tells the browser to
      drop the cookie at once. */
  function DeleteJwtCookie(props: JwtProperties, parseHost: string -> UriHost, request: Request): (c: Cookie)
    ensures c.name == JwtCookieName && c.value.None? && c.maxAge == 0 && c.path == JwtCookiePath
  {
    CreateCookie(props, parseHost, JwtCookieName, None, 0, JwtCookiePath, request)
  }

  /** The deleting cookie for a request names the same cookie as the one
      set for that request: same name, path, domain, Secure, HttpOnly and
      SameSite, so it replaces it. */
  lemma DeleteMatchesCreate(props: JwtProperties, parseHost: string -> UriHost, token: string, request: Request)
    ensures var made := CreateJwtCookie(props, parseHost, token, request);
            var del := DeleteJwtCookie(props, parseHost, request);
            made.(value := None, maxAge := 0) == del
  {
  }

  /** The first cookie named `name` has a value: `findFirst` throws on a
      null one. */
  predicate FirstHasValue(cookies: seq<Cookie>, name: string) {
    forall i :: 0 <= i < |cookies| && cookies[i].name == name && (forall j :: 0 <= j < i ==> cookies[j].name != name)
                ==> cookies[i].value.Some?
  }

  /** The stream `filter`/`map`/`findFirst` over the cookie array. */
  function FirstValue(cookies: seq<Cookie>, name: string): (r: Option<string>)
    requires FirstHasValue(cookies, name)
    decreases |cookies|
    ensures r.None? <==> forall i :: 0 <= i < |cookies| ==> cookies[i].name != name
  {
    if |cookies| == 0 then None
    else if cookies[0].name == name then cookies[0].value
    else
      assert FirstHasValue(cookies[1..], name) by {
        forall i | 0 <= i < |cookies[1..]| && cookies[1..][i].name == name
                   && (forall j :: 0 <= j < i ==> cookies[1..][j].name != name)
          ensures cookies[1..][i].value.Some?
        {
          assert forall j :: 0 <= j < i + 1 ==> cookies[j].name != name by {
            forall j | 0 <= j < i + 1 ensures cookies[j].name != name {
              if j > 0 { assert cookies[j] == cookies[1..][j - 1]; }
            }
          }
        }
      }
      FirstValue(cookies[1..], name)
  }

  /** `getCookieValue`: empty for a request without cookies, else the
      value of the first cookie with the name. */
  function GetCookieValue(request: Request, name: string): (r: Option<string>)
    requires request.cookies.Some? ==> FirstHasValue(request.cookies.value, name)
    ensures request.cookies.None? ==> r.None?
  {
    match request.cookies
    case None => None
    case Some(cs) => FirstValue(cs, name)
  }

  /** `getJwtFromCookies`. */
  function GetJwtFromCookies(request: Request): (r: Option<string>)
    requires request.cookies.Some? ==> FirstHasValue(request.cookies.value, JwtCookieName)
    ensures r.Some? ==> request.cookies.Some?
  {
    GetCookieValue(request, JwtCookieName)
  }

  /** The first cookie with a name decides the value read back. */
  lemma {:induction false} FirstValueAt(cookies: seq<Cookie>, name: string, i: nat)
    requires i < |cookies| && cookies[i].name == name && cookies[i].value.Some?
    requires forall j :: 0 <= j < i ==> cookies[j].name != name
    ensures FirstHasValue(cookies, name)
    ensures FirstValue(cookies, name) == cookies[i].value
    decreases i
  {
    if i > 0 {
      FirstValueAt(cookies[1..], name, i - 1);
    }
  }

  /** A JWT cookie set by the server and sent back before any other "jwt"
      cookie is read back as the token. */
  lemma JwtRoundTrip(props: JwtProperties, parseHost: string -> UriHost, token: string, request: Request,
                     before: seq<Cookie>, after: seq<Cookie>)
    requires forall j :: 0 <= j < |before| ==> before[j].name != JwtCookieName
    ensures var c := CreateJwtCookie(props, parseHost, token, request);
            var back := Request(request.origin, Some(before + [c] + after));
            && FirstHasValue(back.cookies.value, JwtCookieName)
            && GetJwtFromCookies(back) == Some(token)
  {
    var c := CreateJwtCookie(props, parseHost, token, request);
    var cs := before + [c] + after;
    assert cs[|before|] == c;
    assert forall j :: 0 <= j < |before| ==> cs[j] == before[j];
    FirstValueAt(cs, JwtCookieName, |before|);
  }

  /** `addCookie` / `addCookies`: the cookies join the response in order. */
  function AddCookies(response: seq<Cookie>, cookies: seq<Cookie>): (r: seq<Cookie>)
    ensures |r| == |response| + |cookies|
    ensures r[..|response|] == response && r[|response|..] == cookies
  {
    response + cookies
  }

  /** The domain match is a plain suffix test, with no label boundary as
      in section 5.1.3 of RFC 6265: a host that merely ends with the
      configured text gets the configured domain. */
  lemma SuffixWithoutBoundary(props: JwtProperties)
    requires props.domain == Some("example.com")
    ensures ExtractBaseDomain(props, Some("notexample.com")) == Some("example.com")
  {
    assert "notexample.com"[3..] == "example.com";
  }

  /** "172.16." covers one of the sixteen /16 blocks of the private range
      172.16.0.0/12 of section 3 of RFC 1918: a host in 172.17.0.0/16 is
      not treated as local. */
  lemma PartialPrivateRange()
    ensures !IsLocalhost(Some("172.17.0.1"))
  {
    assert "172.17.0.1"[..8] != "192.168." by { assert "172.17.0.1"[0] == '1' && "172.17.0.1"[1] == '7'; }
    assert "172.17.0.1"[..3] != "10." by { assert "172.17.0.1"[1] == '7'; }
    assert "172.17.0.1"[..7] != "172.16." by { assert "172.17.0.1"[5] == '7'; }
  }
}

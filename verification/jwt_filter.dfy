/**
 * The request filter that authenticates a request from its JWT: the token is
 * taken from a "Bearer " Authorization header or else from the session
 * cookie; a readable token whose subject is a stored user, and which is valid
 * for that user's address, puts that address into the security context. The
 * filter chain always continues, exactly once.
 */
module JwtFilter {
  import opened Wrappers
  import opened Text
  import opened UserEntity

  /** The default name of the session cookie. */
  const DefaultCookieName := "jt_session"

  /** The header prefix that announces a bearer token. */
  const BearerPrefix := "Bearer "

  /** A request cookie; its value may be null. */
  datatype Cookie = Cookie(name: string, value: Option<string>)

  /** The parts of a request the filter reads: the Authorization header and the cookie array (both nullable). */
  datatype Request = Request(authorization: Option<string>, cookies: Option<seq<Cookie>>)

  /**
   * What parsing and signature checking make of a token: it fails (the parser
   * throws), or it yields the claims' subject (nullable) and whether the
   * expiry lies after the current instant.
   */
  datatype TokenRead = Unreadable | Claims(subject: Option<string>, live: bool)

  predicate HasBearerPrefix(header: string) {
    |header| >= |BearerPrefix| && header[..|BearerPrefix|] == BearerPrefix
  }

  /** The value of the first cookie with the given name; null when none has it. */
  function CookieValue(cookies: seq<Cookie>, name: string): (r: Option<string>)
    ensures r.Some? ==> exists i :: 0 <= i < |cookies| && cookies[i].name == name && cookies[i].value == r
  {
    if cookies == [] then None
    else if cookies[0].name == name then cookies[0].value
    else CookieValue(cookies[1..], name)
  }

  /** extractToken: a bearer header wins; otherwise the session cookie, if the request has cookies at all. */
  function TokenOf(request: Request, cookieName: string): Option<string> {
    if request.authorization.Some? && HasBearerPrefix(request.authorization.value) then
      Some(request.authorization.value[|BearerPrefix|..])
    else if request.cookies.None? then None
    else CookieValue(request.cookies.value, cookieName)
  }

  /** The value found belongs to the first cookie of that name: every earlier cookie has another name. */
  lemma {:induction false} CookieValueIsFirstMatch(cookies: seq<Cookie>, name: string, k: nat)
    requires k < |cookies| && cookies[k].name == name
    requires forall j :: 0 <= j < k ==> cookies[j].name != name
    ensures CookieValue(cookies, name) == cookies[k].value
  {
    if k > 0 {
      CookieValueIsFirstMatch(cookies[1..], name, k - 1);
    }
  }

  /** Without a cookie of that name there is no value. */
  lemma {:induction false} CookieValueAbsent(cookies: seq<Cookie>, name: string)
    requires forall j :: 0 <= j < |cookies| ==> cookies[j].name != name
    ensures CookieValue(cookies, name) == None
  {
    if cookies != [] {
      CookieValueAbsent(cookies[1..], name);
    }
  }

  /** A bearer header decides the token whatever cookies come with it; without one, the cookie does. */
  lemma BearerWinsOverCookie(header: string, cookies: Option<seq<Cookie>>, cookieName: string)
    ensures HasBearerPrefix(header) ==>
      TokenOf(Request(Some(header), cookies), cookieName) == Some(header[7..])
    ensures !HasBearerPrefix(header) ==>
      TokenOf(Request(Some(header), cookies), cookieName) == TokenOf(Request(None, cookies), cookieName)
  {
  }

  /** A token signed with "Bearer " in front comes back out of the header unchanged. */
  lemma BearerRoundTrip(token: string, cookies: Option<seq<Cookie>>, cookieName: string)
    ensures TokenOf(Request(Some(BearerPrefix + token), cookies), cookieName) == Some(token)
  {
    var h := BearerPrefix + token;
    assert h[..|BearerPrefix|] == BearerPrefix;
    assert h[|BearerPrefix|..] == token;
  }

  /**
   * The address the filter authenticates, if any: the token must be present
   * and not blank, readable, with a subject; the context must not be
   * authenticated yet; the subject must be a stored user; and the token must be
   * valid for that user's stored address (same subject, not expired).
   */
  function Authenticated(token: Option<string>, read: string -> TokenRead, prior: Option<string>, users: map<string, UserData>): Option<string> {
    if token.None? || JavaIsBlank(token.value) then None
    else
      match read(token.value)
      case Unreadable => None
      case Claims(subject, live) =>
        if subject.None? || prior.Some? || subject.value !in users then None
        else if TokenValid(read(token.value), users[subject.value].email) then users[subject.value].email
        else None
  }

  /** isTokenValid: the claims' subject equals the expected address and the token has not expired. */
  predicate TokenValid(claims: TokenRead, expected: Option<string>) {
    claims.Claims? && claims.subject.Some? && expected == claims.subject && claims.live
  }

  /**
   * What authentication means: an address is set only from a non-blank,
   * live token whose subject is that very address, stored as a user's address,
   * and only into an empty context.
   */
  lemma AuthenticatedMeaning(token: Option<string>, read: string -> TokenRead, prior: Option<string>, users: map<string, UserData>)
    ensures Authenticated(token, read, prior, users).Some? <==>
      && token.Some? && !JavaIsBlank(token.value)
      && read(token.value).Claims? && read(token.value).live
      && read(token.value).subject.Some?
      && prior.None?
      && read(token.value).subject.value in users
      && users[read(token.value).subject.value].email == read(token.value).subject
    ensures Authenticated(token, read, prior, users).Some? ==>
      Authenticated(token, read, prior, users) == read(token.value).subject
  {
  }

  /** A context that is already authenticated is never overwritten. */
  lemma KeepsPriorAuthentication(token: Option<string>, read: string -> TokenRead, prior: string, users: map<string, UserData>)
    ensures Authenticated(token, read, Some(prior), users) == None
  {
  }

  /** The security context: the authenticated principal's address, if any. */
  class SecurityContext {
    var authentication: Option<string>

    constructor ()
      ensures authentication == None
    {
      authentication := None;
    }
  }

  /** The rest of the filter chain, observed through the number of times it was invoked. */
  class FilterChain {
    var calls: nat

    constructor ()
      ensures calls == 0
    {
      calls := 0;
    }

    method DoFilter()
      modifies this
      ensures calls == old(calls) + 1
    {
      calls := calls + 1;
    }
  }

  /** The filter, with its configured cookie name and the token reader of the JWT service. */
  class JwtAuthenticationFilter {
    const cookieName: string
    const read: string -> TokenRead

    constructor (cookieName: string, read: string -> TokenRead)
      ensures this.cookieName == cookieName && this.read == read
    {
      this.cookieName := cookieName;
      this.read := read;
    }

    /** extractToken, scanning the cookie array for the first cookie with the configured name. */
    method ExtractToken(request: Request) returns (token: Option<string>)
      ensures token == TokenOf(request, cookieName)
    {
      if request.authorization.Some? && HasBearerPrefix(request.authorization.value) {
        return Some(request.authorization.value[|BearerPrefix|..]);
      }
      if request.cookies.None? {
        return None;
      }
      var cookies := request.cookies.value;
      var i := 0;
      while i < |cookies|
        invariant 0 <= i <= |cookies|
        invariant forall j :: 0 <= j < i ==> cookies[j].name != cookieName
      {
        if cookies[i].name == cookieName {
          CookieValueIsFirstMatch(cookies, cookieName, i);
          return cookies[i].value;
        }
        i := i + 1;
      }
      CookieValueAbsent(cookies, cookieName);
      return None;
    }

    /**
     * doFilterInternal: authenticates the request as Authenticated says and
     * then passes it on down the chain, exactly once on every path.
     */
    method DoFilterInternal(request: Request, users: map<string, UserData>, context: SecurityContext, chain: FilterChain)
      modifies context, chain
      ensures chain.calls == old(chain.calls) + 1
      ensures var auth := Authenticated(TokenOf(request, cookieName), read, old(context.authentication), users);
        context.authentication == if auth.Some? then auth else old(context.authentication)
    {
      var token := ExtractToken(request);
      if token.None? || JavaIsBlank(token.value) {
        chain.DoFilter();
        return;
      }
      var claims := read(token.value);
      if claims.Claims? {
        var email := claims.subject;
        if email.Some? && context.authentication.None? {
          if email.value in users {
            var user := users[email.value];
            if TokenValid(read(token.value), user.email) {
              context.authentication := user.email;
            }
          }
        }
      }
      chain.DoFilter();
    }
  }
}

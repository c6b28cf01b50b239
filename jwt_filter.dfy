/**
 * JwtFilter: turns the Authorization header of a request into an installed
 * authentication. Claim extraction (signature and expiry checks included)
 * and the authentication manager are abstract functions.
 */
module JwtFilter {
  import opened Wrappers
  import opened JavaText

  /** A claim value as the JWT library hands it out. Numbers are either
      integral (Integer, Long, BigInteger) or decimal (a Double, written as
      numer / 10^scale); Structured stands for objects and arrays. */
  datatype ClaimValue = Text(s: string) | Flag(b: bool) | Integral(v: int) | Decimal(numer: int, scale: nat) | Structured

  type Claims = map<string, ClaimValue>

  /** Why claim extraction rejected a token. */
  datatype TokenError = ExpiredToken | MalformedToken | InvalidSignature

  /** The two principal variants the filter can build. */
  datatype AuthToken = RootUserAuthToken(email: string) | AccountUserAuthToken(accountId: Option<int>, email: string)

  /** What the authentication manager returns for an accepted token. */
  datatype Authentication = Authentication(token: AuthToken, authorities: set<string>)

  /** The claims the filter reads, after its casts. */
  datatype ClaimsReading = ClaimsReading(email: Option<string>, isRoot: bool, accountId: Option<int>)

  /** The request continues with this authentication, or the filter throws AuthenticationException. */
  datatype FilterOutcome = Proceed(authentication: Option<Authentication>) | Rejected

  const BEARER_PREFIX: string := "Bearer "
  const EMAIL_CLAIM: string := "email"
  const IS_ROOT_CLAIM: string := "isRoot"
  const ACCOUNT_ID_CLAIM: string := "accountId"
  const LONG_MIN: int := -0x8000_0000_0000_0000
  const LONG_MAX: int := 0x7FFF_FFFF_FFFF_FFFF

  /** The token of an Authorization header using exactly the scheme "Bearer " (case-sensitive). */
  function BearerToken(header: Option<string>): (jwt: Option<string>)
    ensures jwt.Some? <==> header.Some? && StartsWith(header.value, BEARER_PREFIX)
    ensures jwt.Some? ==> header.value == BEARER_PREFIX + jwt.value
  {
    if header.Some? && StartsWith(header.value, BEARER_PREFIX) then
      assert header.value == header.value[..7] + header.value[7..];
      Some(header.value[7..])
    else None
  }

  /** The low 64 bits of an integer, as a two's-complement long (BigInteger.longValue). */
  function WrapToLong(v: int): (r: int)
    ensures LONG_MIN <= r <= LONG_MAX
    ensures LONG_MIN <= v <= LONG_MAX ==> r == v
    ensures (r - v) % 0x1_0000_0000_0000_0000 == 0
  {
    (v - LONG_MIN) % 0x1_0000_0000_0000_0000 + LONG_MIN
  }

  /** A decimal truncated toward zero and saturated to the long range (Double.longValue). */
  function TruncateToLong(numer: int, scale: nat): (r: int)
    ensures LONG_MIN <= r <= LONG_MAX
    ensures numer >= 0 ==> r >= 0
    ensures numer <= 0 ==> r <= 0
    // in range, the magnitude is the largest whole number not above the decimal's
    ensures numer >= 0 && r < LONG_MAX ==> r * Pow10(scale) <= numer < (r + 1) * Pow10(scale)
    ensures numer < 0 && r > LONG_MIN ==> (r - 1) * Pow10(scale) < numer <= r * Pow10(scale)
    // out of range, the result saturates
    ensures r == LONG_MAX ==> numer >= LONG_MAX * Pow10(scale)
    ensures r == LONG_MIN ==> numer <= LONG_MIN * Pow10(scale)
  {
    var p := Pow10(scale);
    var truncated := if numer >= 0 then numer / p else -(-numer / p);
    var r := if truncated < LONG_MIN then LONG_MIN else if truncated > LONG_MAX then LONG_MAX else truncated;
    TruncationMeaning(numer, p, truncated, r);
    r
  }

  /** What truncating and saturating a decimal numer / p means, with the arithmetic kept
      away from the function that uses it. */
  lemma TruncationMeaning(numer: int, p: int, truncated: int, r: int)
    requires p >= 1
    requires truncated == if numer >= 0 then numer / p else -(-numer / p)
    requires r == if truncated < LONG_MIN then LONG_MIN else if truncated > LONG_MAX then LONG_MAX else truncated
    ensures numer >= 0 ==> r >= 0
    ensures numer <= 0 ==> r <= 0
    ensures numer >= 0 && r < LONG_MAX ==> r * p <= numer < (r + 1) * p
    ensures numer < 0 && r > LONG_MIN ==> (r - 1) * p < numer <= r * p
    ensures r == LONG_MAX ==> numer >= LONG_MAX * p
    ensures r == LONG_MIN ==> numer <= LONG_MIN * p
  {
    if numer >= 0 {
      TruncationBrackets(numer, p, truncated);
      if truncated > LONG_MAX {
        assert r == LONG_MAX;
      } else {
        assert r == truncated;
      }
    } else {
      var q := -numer / p;
      TruncationBrackets(-numer, p, q);
      if -q < LONG_MIN {
        assert r == LONG_MIN;
      } else {
        assert r == -q;
      }
    }
  }

  /** The quotient of a natural number brackets it between two multiples of the divisor,
      and a quotient past a bound puts the number past that bound's multiple. */
  lemma TruncationBrackets(n: int, p: int, q: int)
    requires n >= 0 && p >= 1 && q == n / p
    ensures q >= 0
    ensures q * p <= n < (q + 1) * p
    ensures (-q - 1) * p < -n <= -q * p
    ensures q > LONG_MAX ==> n >= LONG_MAX * p
    ensures q > -LONG_MIN ==> n >= -LONG_MIN * p
  {
    if q > LONG_MAX {
      assert q * p >= LONG_MAX * p;
    }
    if q > -LONG_MIN {
      assert q * p >= -LONG_MIN * p;
    }
  }

  /** The accountId claim, coerced leniently: a number becomes its longValue, anything else null. */
  function AccountIdClaim(claims: Claims): (accountId: Option<int>)
    ensures ACCOUNT_ID_CLAIM !in claims ==> accountId.None?
    ensures accountId.Some? ==> ACCOUNT_ID_CLAIM in claims && LONG_MIN <= accountId.value <= LONG_MAX
    ensures accountId.Some? <==>
              ACCOUNT_ID_CLAIM in claims && (claims[ACCOUNT_ID_CLAIM].Integral? || claims[ACCOUNT_ID_CLAIM].Decimal?)
  {
    if ACCOUNT_ID_CLAIM !in claims then None
    else match claims[ACCOUNT_ID_CLAIM]
      case Integral(v) => Some(WrapToLong(v))
      case Decimal(numer, scale) => Some(TruncateToLong(numer, scale))
      case _ => None
  }

  /**
   * The casts of the filter: `(String) claims.get("email")` fails on a
   * non-string, `(boolean) claims.get("isRoot")` fails on an absent or
   * non-boolean claim; the accountId coercion never fails.
   */
  function ReadClaims(claims: Claims): (reading: Option<ClaimsReading>)
    ensures reading.Some? <==>
              && (EMAIL_CLAIM in claims ==> claims[EMAIL_CLAIM].Text?)
              && IS_ROOT_CLAIM in claims && claims[IS_ROOT_CLAIM].Flag?
    ensures reading.Some? ==>
              && reading.value.isRoot == claims[IS_ROOT_CLAIM].b
              && reading.value.accountId == AccountIdClaim(claims)
              && (reading.value.email.Some? <==> EMAIL_CLAIM in claims)
              && (reading.value.email.Some? ==> reading.value.email.value == claims[EMAIL_CLAIM].s)
  {
    var emailOk := EMAIL_CLAIM !in claims || claims[EMAIL_CLAIM].Text?;
    if !emailOk || IS_ROOT_CLAIM !in claims || !claims[IS_ROOT_CLAIM].Flag? then None
    else
      var email := if EMAIL_CLAIM in claims then Some(claims[EMAIL_CLAIM].s) else None;
      Some(ClaimsReading(email, claims[IS_ROOT_CLAIM].b, AccountIdClaim(claims)))
  }

  /** The principal variant chosen by isRoot. */
  function PrincipalFor(email: string, reading: ClaimsReading): AuthToken {
    if reading.isRoot then RootUserAuthToken(email) else AccountUserAuthToken(reading.accountId, email)
  }

  /**
   * doFilterInternal as a decision: the authentication the request continues
   * with, or rejection.
   */
  function Decide(header: Option<string>, getClaims: string -> Result<Claims, TokenError>,
                  authenticate: AuthToken -> Option<Authentication>, current: Option<Authentication>): (outcome: FilterOutcome)
    ensures BearerToken(header).None? ==> outcome == Proceed(current)
    ensures current.Some? ==> outcome == Proceed(current) || outcome == Rejected
    ensures outcome.Proceed? && outcome.authentication != current ==>
              && current.None?
              && outcome.authentication.Some?
              && BearerToken(header).Some?
              && getClaims(BearerToken(header).value).Success?
              && ReadClaims(getClaims(BearerToken(header).value).value).Some?
              && var reading := ReadClaims(getClaims(BearerToken(header).value).value).value;
                 && reading.email.Some?
                 && authenticate(PrincipalFor(reading.email.value, reading)) == outcome.authentication
    ensures outcome == Rejected <==>
              && BearerToken(header).Some?
              && var claims := getClaims(BearerToken(header).value);
                 || claims.Failure?
                 || ReadClaims(claims.value).None?
                 || (var reading := ReadClaims(claims.value).value;
                     reading.email.Some? && current.None? && authenticate(PrincipalFor(reading.email.value, reading)).None?)
    ensures && BearerToken(header).Some?
            && getClaims(BearerToken(header).value).Success?
            && ReadClaims(getClaims(BearerToken(header).value).value).Some?
            && current.None?
            ==> var reading := ReadClaims(getClaims(BearerToken(header).value).value).value;
                reading.email.Some? && authenticate(PrincipalFor(reading.email.value, reading)).Some? ==>
                  outcome == Proceed(authenticate(PrincipalFor(reading.email.value, reading)))
  {
    match BearerToken(header)
    case None => Proceed(current)
    case Some(jwt) =>
      match getClaims(jwt)
      case Failure(_) => Rejected
      case Success(claims) =>
        match ReadClaims(claims)
        case None => Rejected
        case Some(reading) =>
          if reading.email.Some? && current.None? then
            match authenticate(PrincipalFor(reading.email.value, reading))
            case None => Rejected
            case Some(authenticated) => Proceed(Some(authenticated))
          else Proceed(current)
  }

  /** The request-scoped security context: the installed authentication, if any. */
  class SecurityContext {
    var authentication: Option<Authentication>

    constructor ()
      ensures authentication.None?
    {
      authentication := None;
    }
  }

  /** The filter, holding its two collaborators: claim extraction and the authentication manager. */
  class Filter {
    const getClaims: string -> Result<Claims, TokenError>
    const authenticate: AuthToken -> Option<Authentication>

    constructor (getClaims: string -> Result<Claims, TokenError>, authenticate: AuthToken -> Option<Authentication>)
      ensures this.getClaims == getClaims && this.authenticate == authenticate
    {
      this.getClaims := getClaims;
      this.authenticate := authenticate;
    }

    /**
     * doFilterInternal: returns whether the request continues down the chain
     * (false when AuthenticationException is thrown). The context changes
     * only by installing a new authentication where none was present.
     */
    method DoFilterInternal(context: SecurityContext, header: Option<string>) returns (chainContinued: bool)
      modifies context
      ensures var outcome := Decide(header, getClaims, authenticate, old(context.authentication));
              && (chainContinued <==> outcome.Proceed?)
              && (chainContinued ==> context.authentication == outcome.authentication)
              && (!chainContinued ==> context.authentication == old(context.authentication))
    {
      if header.Some? && StartsWith(header.value, BEARER_PREFIX) {
        var jwt := header.value[7..];
        var claims := getClaims(jwt);
        if claims.Failure? {
          return false;
        }
        var reading := ReadClaims(claims.value);
        if reading.None? {
          return false;
        }
        var email := reading.value.email;
        if email.Some? && context.authentication.None? {
          var authToken: AuthToken;
          if reading.value.isRoot {
            authToken := RootUserAuthToken(email.value);
          } else {
            authToken := AccountUserAuthToken(reading.value.accountId, email.value);
          }
          var authenticated := authenticate(authToken);
          if authenticated.None? {
            return false;
          }
          context.authentication := authenticated;
        }
      }
      chainContinued := true;
    }
  }

  /** The scheme match is exact: "Bearer " + t yields t, and any other casing yields nothing. */
  lemma BearerSchemeIsCaseSensitive(token: string)
    ensures BearerToken(Some(BEARER_PREFIX + token)) == Some(token)
    ensures BearerToken(Some("bearer " + token)).None?
    ensures BearerToken(Some("BEARER " + token)).None?
  {
    assert (BEARER_PREFIX + token)[..7] == BEARER_PREFIX;
    assert ("bearer " + token)[..7] == "bearer ";
    assert ("BEARER " + token)[..7] == "BEARER ";
  }

  /** An in-range integral accountId is kept exactly; non-numbers and absence become null. */
  lemma AccountIdCoercion(claims: Claims, v: int, s: string)
    ensures LONG_MIN <= v <= LONG_MAX ==> AccountIdClaim(claims[ACCOUNT_ID_CLAIM := Integral(v)]) == Some(v)
    ensures AccountIdClaim(claims[ACCOUNT_ID_CLAIM := Text(s)]) == None
    ensures AccountIdClaim(claims - {ACCOUNT_ID_CLAIM}) == None
    ensures AccountIdClaim(claims[ACCOUNT_ID_CLAIM := Decimal(v, 0)]) == Some(if v < LONG_MIN then LONG_MIN else if v > LONG_MAX then LONG_MAX else v)
  {
  }

  /** Whatever the accountId claim holds, it never decides whether the claims can be read. */
  lemma AccountIdNeverRejects(claims: Claims, anything: ClaimValue)
    ensures ReadClaims(claims).Some? <==> ReadClaims(claims[ACCOUNT_ID_CLAIM := anything]).Some?
    ensures ReadClaims(claims).Some? <==> ReadClaims(claims - {ACCOUNT_ID_CLAIM}).Some?
  {
    var updated := claims[ACCOUNT_ID_CLAIM := anything];
    assert updated[EMAIL_CLAIM] == claims[EMAIL_CLAIM] <== EMAIL_CLAIM in claims;
    assert updated[IS_ROOT_CLAIM] == claims[IS_ROOT_CLAIM] <== IS_ROOT_CLAIM in claims;
  }

  /** A missing isRoot claim rejects the request, even when an authentication is already installed. */
  lemma MissingIsRootRejects(header: Option<string>, getClaims: string -> Result<Claims, TokenError>,
                             authenticate: AuthToken -> Option<Authentication>, current: Option<Authentication>)
    requires BearerToken(header).Some?
    requires getClaims(BearerToken(header).value).Success?
    requires IS_ROOT_CLAIM !in getClaims(BearerToken(header).value).value
    ensures Decide(header, getClaims, authenticate, current) == Rejected
  {
  }

  /**
   * With a readable claim set, an email and nothing installed, the filter
   * authenticates the principal isRoot selects: a root principal carrying only
   * the email, or an account principal with the coerced accountId (possibly
   * null), and installs exactly what the manager returns.
   */
  lemma SelectsPrincipalByIsRoot(header: Option<string>, getClaims: string -> Result<Claims, TokenError>,
                                 authenticate: AuthToken -> Option<Authentication>, email: string, isRoot: bool)
    requires BearerToken(header).Some?
    requires getClaims(BearerToken(header).value).Success?
    requires var claims := getClaims(BearerToken(header).value).value;
             && EMAIL_CLAIM in claims && claims[EMAIL_CLAIM] == Text(email)
             && IS_ROOT_CLAIM in claims && claims[IS_ROOT_CLAIM] == Flag(isRoot)
    ensures var claims := getClaims(BearerToken(header).value).value;
            var token := if isRoot then RootUserAuthToken(email) else AccountUserAuthToken(AccountIdClaim(claims), email);
            Decide(header, getClaims, authenticate, None)
              == if authenticate(token).Some? then Proceed(authenticate(token)) else Rejected
  {
  }

  /** A claim set without an email never installs anything, but still continues the request. */
  lemma NoEmailInstallsNothing(header: Option<string>, getClaims: string -> Result<Claims, TokenError>,
                               authenticate: AuthToken -> Option<Authentication>, current: Option<Authentication>)
    requires BearerToken(header).Some?
    requires getClaims(BearerToken(header).value).Success?
    requires var claims := getClaims(BearerToken(header).value).value;
             EMAIL_CLAIM !in claims && IS_ROOT_CLAIM in claims && claims[IS_ROOT_CLAIM].Flag?
    ensures Decide(header, getClaims, authenticate, current) == Proceed(current)
  {
  }
}

/** Bearer-credential extraction from gRPC metadata and the order of the authentication checks:
    extract, then validate, then ask the blacklist. Token validation (JWT parsing and HMAC
    verification with the service's secret) and the blacklist store are oracles. */
module Auth {
  import opened Wrappers
  import opened GoInts
  import opened GoStrings

  /** The authentication scheme of section 2.1 of RFC 6750, matched case-sensitively. */
  const BearerPrefix: string := "Bearer "
  /** gRPC delivers metadata keys in lower case. */
  const AuthorizationKey: string := "authorization"

  datatype Claims = Claims(userId: uint64, email: string)

  /** Why token validation refused a token: the library's own error, or ErrInvalidToken. */
  datatype TokenError = InvalidToken | Rejected(reason: string)

  /** The errors the two GetUserID functions return. */
  datatype AuthError =
    | MissingToken
    | Invalid(cause: TokenError)
    | TokenBlacklisted
    | BlacklistCheckFailed(reason: string)

  /** The incoming request's metadata; None when the context carries none. */
  datatype IncomingContext = IncomingContext(metadata: Option<map<string, seq<string>>>)

  /** md.Get("authorization"): the values of the header, possibly none. */
  function AuthorizationValues(md: map<string, seq<string>>): (values: seq<string>) {
    if AuthorizationKey in md then md[AuthorizationKey] else []
  }

  /** The request carries a first authorization value that starts with the bearer prefix. */
  predicate HasBearerHeader(ctx: IncomingContext) {
    ctx.metadata.Some? && |AuthorizationValues(ctx.metadata.value)| > 0
    && HasPrefix(AuthorizationValues(ctx.metadata.value)[0], BearerPrefix)
  }

  /** The token is the first authorization value without its "Bearer " prefix; a request without
      metadata, without the header, or whose first value lacks the exact prefix has no token. */
  function ExtractTokenFromContext(ctx: IncomingContext): (r: Result<string, AuthError>)
    ensures r.Err? ==> r.error == MissingToken
    ensures r.Ok? <==> HasBearerHeader(ctx)
    ensures r.Ok? ==> r.value == AuthorizationValues(ctx.metadata.value)[0][|BearerPrefix|..]
  {
    if ctx.metadata.None? then Err(MissingToken)
    else
      var authHeader := AuthorizationValues(ctx.metadata.value);
      if |authHeader| == 0 then Err(MissingToken)
      else
        var token := TrimPrefix(authHeader[0], BearerPrefix);
        if token == authHeader[0] then Err(MissingToken) else Ok(token)
  }

  /** The user id of a valid token, without the blacklist. */
  function GetUserIDFromContext(ctx: IncomingContext, validate: string -> Result<Claims, TokenError>)
    : (r: Result<uint64, AuthError>)
    ensures r.Ok? <==> HasBearerHeader(ctx) && validate(ExtractTokenFromContext(ctx).value).Ok?
    ensures r.Ok? ==> r.value == validate(ExtractTokenFromContext(ctx).value).value.userId
    ensures !HasBearerHeader(ctx) ==> r == Err(MissingToken)
    ensures HasBearerHeader(ctx) && validate(ExtractTokenFromContext(ctx).value).Err? ==>
              r == Err(Invalid(validate(ExtractTokenFromContext(ctx).value).error))
  {
    match ExtractTokenFromContext(ctx)
    case Err(e) => Err(e)
    case Ok(token) =>
      match validate(token)
      case Err(e) => Err(Invalid(e))
      case Ok(claims) => Ok(claims.userId)
  }

  /** The user id of a valid token that is not blacklisted. A failing blacklist check rejects the
      request (fails closed), and the blacklist is asked only about a token that validated. */
  function GetUserIDFromContextWithBlacklist(ctx: IncomingContext, validate: string -> Result<Claims, TokenError>,
                                             isBlacklisted: string -> Result<bool, string>)
    : (r: Result<uint64, AuthError>)
    ensures !HasBearerHeader(ctx) ==> r == Err(MissingToken)
    ensures r.Ok? <==> (GetUserIDFromContext(ctx, validate).Ok?
                        && isBlacklisted(ExtractTokenFromContext(ctx).value) == Ok(false))
    ensures r.Ok? ==> r == GetUserIDFromContext(ctx, validate)
    ensures r == Err(TokenBlacklisted) <==> (GetUserIDFromContext(ctx, validate).Ok?
                                             && isBlacklisted(ExtractTokenFromContext(ctx).value) == Ok(true))
    ensures (r.Err? && r.error.BlacklistCheckFailed?) <==>
              (GetUserIDFromContext(ctx, validate).Ok? && isBlacklisted(ExtractTokenFromContext(ctx).value).Err?)
  {
    match ExtractTokenFromContext(ctx)
    case Err(e) => Err(e)
    case Ok(token) =>
      match validate(token)
      case Err(e) => Err(Invalid(e))
      case Ok(claims) =>
        match isBlacklisted(token)
        case Err(reason) => Err(BlacklistCheckFailed("failed to check token blacklist: " + reason))
        case Ok(blacklisted) => if blacklisted then Err(TokenBlacklisted) else Ok(claims.userId)
  }

  /** Validation comes before the blacklist: when there is no token or it fails validation, the
      error is the one GetUserIDFromContext gives, whatever the blacklist would have answered. */
  lemma BlacklistNotConsultedWithoutValidToken(ctx: IncomingContext, validate: string -> Result<Claims, TokenError>,
                                               b1: string -> Result<bool, string>, b2: string -> Result<bool, string>)
    requires GetUserIDFromContext(ctx, validate).Err?
    ensures GetUserIDFromContextWithBlacklist(ctx, validate, b1) == GetUserIDFromContext(ctx, validate)
    ensures GetUserIDFromContextWithBlacklist(ctx, validate, b1) == GetUserIDFromContextWithBlacklist(ctx, validate, b2)
  {
  }

  /** Only the first authorization value is consulted. */
  lemma OnlyFirstValueConsulted(ctx1: IncomingContext, ctx2: IncomingContext)
    requires ctx1.metadata.Some? && ctx2.metadata.Some?
    requires |AuthorizationValues(ctx1.metadata.value)| > 0 && |AuthorizationValues(ctx2.metadata.value)| > 0
    requires AuthorizationValues(ctx1.metadata.value)[0] == AuthorizationValues(ctx2.metadata.value)[0]
    ensures ExtractTokenFromContext(ctx1) == ExtractTokenFromContext(ctx2)
  {
  }

  /** The header "Bearer " alone yields the empty token, not an error. */
  lemma BareBearerYieldsEmptyToken(ctx: IncomingContext)
    requires ctx.metadata.Some? && AuthorizationValues(ctx.metadata.value) == [BearerPrefix]
    ensures ExtractTokenFromContext(ctx) == Ok("")
  {
  }

  /** The scheme name is matched case-sensitively: a lower-case "bearer" is a missing token. */
  lemma LowerCaseSchemeIsMissingToken(ctx: IncomingContext, rest: string)
    requires ctx.metadata.Some? && |AuthorizationValues(ctx.metadata.value)| > 0
    requires AuthorizationValues(ctx.metadata.value)[0] == "bearer " + rest
    ensures ExtractTokenFromContext(ctx) == Err(MissingToken)
  {
    assert AuthorizationValues(ctx.metadata.value)[0][0] == 'b';
  }
}

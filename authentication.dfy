/** The token lifecycle of the identity service: login issues an HS512-signed
    access token, introspection and logout verify it (signature, then expiry,
    then the revocation store), and logout revokes it by recording its `jti`
    with its expiry time. Clock reads, the random `jti` and the password
    check are parameters. */
module Authentication {
  import opened Wrappers
  import opened ScopeBuilder
  import opened Jwt

  datatype ErrorCode = Unauthenticated | UserNotExisted

  /** What a call of the service throws. */
  datatype Thrown =
    | AppError(code: ErrorCode)  // the service's own AppException
    | ParseError                 // the token does not parse as a signed JWT
    | JoseError                  // the HMAC verifier refuses the header's algorithm
    | NullPointer                // a verified token without `exp`
    | IllegalArgument            // the store refuses the null id of a token without `jti`

  datatype User = User(username: string, password: string, roles: Option<seq<Role>>)

  datatype AuthenticationResponse = AuthenticationResponse(token: Jws, authenticated: bool)

  const Issuer := "kaakaa.com"

  /** One hour. */
  const ValidityMillis := 3600000

  const IssuedHeader := Header(HS512)

  /** The claims the service puts into a new token, signed with `key`.
      `issuedAtMillis` and `clockMillis` are the two clock reads made while
      the claims are built, `jti` the random identifier. */
  function Issue(key: string, user: User, issuedAtMillis: nat, clockMillis: nat, jti: string): Jws {
    var claims := Claims(
      user.username,
      Issuer,
      ToNumericDate(issuedAtMillis),
      Some(ToNumericDate(clockMillis + ValidityMillis)),
      Some(jti),
      Scope(user.roles));
    Jws(IssuedHeader, claims, Sign(key, IssuedHeader, claims))
  }

  /** The verification decision: parse, check the signature, check that `exp`
      is strictly after now, and only then look the `jti` up among the
      revoked ones. */
  function Verify(key: string, token: CompactToken, revoked: map<string, int>, nowMillis: int): Result<Jws, Thrown> {
    match token
    case Unparseable(_) => Failure(ParseError)
    case Parsed(jws) =>
      if !jws.header.alg.IsHmac() then Failure(JoseError)
      else if !SignatureValid(key, jws) then Failure(AppError(Unauthenticated))
      else if jws.claims.exp.None? then Failure(NullPointer)
      else if !(ToMillis(jws.claims.exp.value) > nowMillis) then Failure(AppError(Unauthenticated))
      else if jws.claims.jti.None? then Failure(IllegalArgument)
      else if jws.claims.jti.value in revoked then Failure(AppError(Unauthenticated))
      else Success(jws)
  }

  /** A token is active: genuinely signed, unexpired and not revoked. */
  predicate Active(key: string, jws: Jws, revoked: map<string, int>, nowMillis: int) {
    && jws.header.alg.IsHmac()
    && SignatureValid(key, jws)
    && jws.claims.exp.Some?
    && nowMillis < ToMillis(jws.claims.exp.value)
    && jws.claims.jti.Some?
    && jws.claims.jti.value !in revoked
  }

  /** A revocation record: the revoked `jti` as primary key, and the expiry
      time (milliseconds) of the token it names. */
  datatype InvalidatedToken = InvalidatedToken(id: string, expiryTime: int)

  /** The revocation record logout stores for a verified token. */
  function RevocationOf(jws: Jws): InvalidatedToken
    requires jws.claims.jti.Some? && jws.claims.exp.Some?
  {
    InvalidatedToken(jws.claims.jti.value, ToMillis(jws.claims.exp.value))
  }

  // ---------------------------------------------------------------------
  // Properties of verification

  /** Verification succeeds exactly on active tokens and returns the token. */
  lemma VerifyAcceptsExactlyActive(key: string, token: CompactToken, revoked: map<string, int>, nowMillis: int)
    ensures Verify(key, token, revoked, nowMillis).Success? <==>
      token.Parsed? && Active(key, token.jws, revoked, nowMillis)
    ensures Verify(key, token, revoked, nowMillis).Success? ==>
      Verify(key, token, revoked, nowMillis).value == token.jws
  {
  }

  /** A genuinely signed token is rejected with UNAUTHENTICATED from the
      instant its expiry is reached, whatever the store holds. */
  lemma ExpiredRejected(key: string, jws: Jws, revoked: map<string, int>, nowMillis: int)
    requires jws.header.alg.IsHmac() && SignatureValid(key, jws)
    requires jws.claims.exp.Some? && ToMillis(jws.claims.exp.value) <= nowMillis
    ensures Verify(key, Parsed(jws), revoked, nowMillis) == Failure(AppError(Unauthenticated))
  {
  }

  /** A token whose signature and expiry pass is still rejected with
      UNAUTHENTICATED when its `jti` is revoked. */
  lemma RevokedRejected(key: string, jws: Jws, revoked: map<string, int>, nowMillis: int)
    requires jws.header.alg.IsHmac() && SignatureValid(key, jws)
    requires jws.claims.exp.Some? && nowMillis < ToMillis(jws.claims.exp.value)
    requires jws.claims.jti.Some? && jws.claims.jti.value in revoked
    ensures Verify(key, Parsed(jws), revoked, nowMillis) == Failure(AppError(Unauthenticated))
  {
  }

  /** The store is consulted only after the signature and expiry checks pass:
      before that, the outcome does not depend on it. */
  lemma StoreConsultedOnlyAfterSignatureAndExpiry(
    key: string, token: CompactToken, revoked1: map<string, int>, revoked2: map<string, int>, nowMillis: int)
    requires !(token.Parsed? && token.jws.header.alg.IsHmac() && SignatureValid(key, token.jws)
               && token.jws.claims.exp.Some? && nowMillis < ToMillis(token.jws.claims.exp.value))
    ensures Verify(key, token, revoked1, nowMillis) == Verify(key, token, revoked2, nowMillis)
  {
  }

  /** Fewer revocations never turn an accepted token into a rejected one. */
  lemma RevocationMonotone(
    key: string, token: CompactToken, fewer: map<string, int>, more: map<string, int>, nowMillis: int)
    requires fewer.Keys <= more.Keys
    requires Verify(key, token, more, nowMillis).Success?
    ensures Verify(key, token, fewer, nowMillis) == Verify(key, token, more, nowMillis)
  {
  }

  /** Once a verified token's revocation record is stored, the token is
      rejected with UNAUTHENTICATED at every later (or earlier) instant. */
  lemma RevokedStaysRejected(key: string, token: CompactToken, revoked: map<string, int>, nowMillis: int, laterMillis: int)
    requires Verify(key, token, revoked, nowMillis).Success?
    ensures var record := RevocationOf(token.jws);
      Verify(key, token, revoked[record.id := record.expiryTime], laterMillis) == Failure(AppError(Unauthenticated))
  {
  }

  // ---------------------------------------------------------------------
  // Properties of issuance

  /** An issued token: an HS512 header, and claims with subject, issuer,
      identifier and scope as built, the first clock read in whole seconds
      as issue time, and an expiry one hour after the second clock read,
      rounded down to a whole second. */
  lemma IssuedClaims(key: string, user: User, issuedAtMillis: nat, clockMillis: nat, jti: string)
    ensures Issue(key, user, issuedAtMillis, clockMillis, jti).header == Header(HS512)
    ensures var c := Issue(key, user, issuedAtMillis, clockMillis, jti).claims;
      && c.sub == user.username
      && c.iat == ToNumericDate(issuedAtMillis)
      && issuedAtMillis - MillisPerSecond < ToMillis(c.iat) <= issuedAtMillis
      && c.iss == "kaakaa.com"
      && c.jti == Some(jti)
      && c.scope == Scope(user.roles)
      && c.exp.Some?
      && clockMillis + ValidityMillis - MillisPerSecond < ToMillis(c.exp.value) <= clockMillis + ValidityMillis
  {
    NumericDateRoundTrip(issuedAtMillis);
    NumericDateRoundTrip(clockMillis + ValidityMillis);
  }

  /** Round trip: a token issued under a key verifies under that key, to
      itself, while it is unexpired and its `jti` is not revoked. */
  lemma IssuedTokenVerifies(
    key: string, user: User, issuedAtMillis: nat, clockMillis: nat, jti: string,
    revoked: map<string, int>, nowMillis: int)
    requires jti !in revoked
    requires nowMillis < ToMillis(ToNumericDate(clockMillis + ValidityMillis))
    ensures var t := Issue(key, user, issuedAtMillis, clockMillis, jti);
      Verify(key, Parsed(t), revoked, nowMillis) == Success(t) && t.claims.sub == user.username
  {
  }

  /** In particular it verifies for the first 3599 seconds after issuance. */
  lemma IssuedTokenVerifiesWithinLifetime(
    key: string, user: User, issuedAtMillis: nat, clockMillis: nat, jti: string,
    revoked: map<string, int>, nowMillis: int)
    requires jti !in revoked
    requires nowMillis <= clockMillis + ValidityMillis - MillisPerSecond
    ensures var t := Issue(key, user, issuedAtMillis, clockMillis, jti);
      Verify(key, Parsed(t), revoked, nowMillis) == Success(t)
  {
    IssuedClaims(key, user, issuedAtMillis, clockMillis, jti);
    IssuedTokenVerifies(key, user, issuedAtMillis, clockMillis, jti, revoked, nowMillis);
  }

  /** A token issued under one key is rejected under any other. This rests
      on the symbolic signature: it treats HMAC as a perfect MAC, with no two
      keys and no two claim sets giving the same tag. */
  lemma OtherKeyRejected(
    key: string, otherKey: string, user: User, issuedAtMillis: nat, clockMillis: nat, jti: string,
    revoked: map<string, int>, nowMillis: int)
    requires otherKey != key
    ensures Verify(otherKey, Parsed(Issue(key, user, issuedAtMillis, clockMillis, jti)), revoked, nowMillis)
      == Failure(AppError(Unauthenticated))
  {
  }

  /** Tampering: an issued token whose claim set is replaced by any other is
      rejected with UNAUTHENTICATED, never accepted. */
  lemma TamperedClaimsRejected(
    key: string, user: User, issuedAtMillis: nat, clockMillis: nat, jti: string,
    forged: Claims, revoked: map<string, int>, nowMillis: int)
    requires forged != Issue(key, user, issuedAtMillis, clockMillis, jti).claims
    ensures var t := Issue(key, user, issuedAtMillis, clockMillis, jti);
      Verify(key, Parsed(Jws(t.header, forged, t.signature)), revoked, nowMillis)
        == Failure(AppError(Unauthenticated))
  {
  }

  // ---------------------------------------------------------------------
  // The service

  class AuthenticationService {
    /** The HMAC secret, configured once. */
    const signerKey: string

    /** The user repository, by username; this service only reads it. */
    var users: map<string, User>

    /** The invalidated-token repository: revoked `jti` to the expiry time
        (milliseconds) of the token it names. */
    var invalidated: map<string, int>

    /** The user repository is looked up by username. */
    ghost predicate Valid()
      reads this
    {
      forall name :: name in users ==> users[name].username == name
    }

    constructor (signerKey: string, users: map<string, User>, invalidated: map<string, int>)
      requires forall name :: name in users ==> users[name].username == name
      ensures Valid()
      ensures this.signerKey == signerKey && this.users == users && this.invalidated == invalidated
    {
      this.signerKey := signerKey;
      this.users := users;
      this.invalidated := invalidated;
    }

    /** Introspection: `valid` is false exactly when verification throws the
        service's own exception, true when it succeeds; any other exception
        propagates. The store is not changed. */
    method Introspect(token: CompactToken, nowMillis: int) returns (r: Result<bool, Thrown>)
      ensures r == Success(true) <==> Verify(signerKey, token, invalidated, nowMillis).Success?
      ensures r == Success(false) <==>
        (Verify(signerKey, token, invalidated, nowMillis).Failure?
         && Verify(signerKey, token, invalidated, nowMillis).error.AppError?)
      ensures r.Failure? ==>
        Verify(signerKey, token, invalidated, nowMillis) == Failure(r.error) && !r.error.AppError?
    {
      var isValid := true;
      var verified := Verify(signerKey, token, invalidated, nowMillis);
      if verified.Failure? {
        if verified.error.AppError? {
          isValid := false;
        } else {
          return Failure(verified.error);
        }
      }
      r := Success(isValid);
    }

    /** Login: unknown user, then wrong password, then a new token. */
    method Authenticate(
      username: string, password: string, matches: (string, string) -> bool,
      issuedAtMillis: nat, clockMillis: nat, jti: string)
      returns (r: Result<AuthenticationResponse, Thrown>)
      requires Valid()
      ensures username !in users ==> r == Failure(AppError(UserNotExisted))
      ensures username in users && !matches(password, users[username].password) ==>
        r == Failure(AppError(Unauthenticated))
      ensures username in users && matches(password, users[username].password) ==>
        && r.Success?
        && r.value.authenticated
        && r.value.token == Issue(signerKey, users[username], issuedAtMillis, clockMillis, jti)
        && r.value.token.claims.sub == username
    {
      if username !in users {
        return Failure(AppError(UserNotExisted));
      }
      var user := users[username];
      var authenticated := matches(password, user.password);
      if !authenticated {
        return Failure(AppError(Unauthenticated));
      }
      var token := GenerateToken(user, issuedAtMillis, clockMillis, jti);
      r := Success(AuthenticationResponse(token, true));
    }

    /** Builds the claims of a new token and signs them with the secret. */
    method GenerateToken(user: User, issuedAtMillis: nat, clockMillis: nat, jti: string) returns (token: Jws)
      ensures token == Issue(signerKey, user, issuedAtMillis, clockMillis, jti)
      ensures SignatureValid(signerKey, token) && token.claims.sub == user.username
    {
      var header := Header(HS512);
      var scope := BuildScope(user.roles);
      var claims := Claims(
        user.username,
        Issuer,
        ToNumericDate(issuedAtMillis),
        Some(ToNumericDate(clockMillis + ValidityMillis)),
        Some(jti),
        scope);
      token := Jws(header, claims, Sign(signerKey, header, claims));
    }

    /** Logout: verify the token, then record its `jti` with its expiry. A
        failed verification changes nothing. */
    method Logout(token: CompactToken, nowMillis: int) returns (r: Outcome<Thrown>)
      modifies this`invalidated
      ensures var v := Verify(signerKey, token, old(invalidated), nowMillis);
        && (v.Failure? ==> r == Fail(v.error) && invalidated == old(invalidated))
        && (v.Success? ==>
              && r == Pass
              && v.value.claims.jti.Some? && v.value.claims.exp.Some?
              && v.value.claims.jti.value !in old(invalidated)
              && invalidated == old(invalidated)[RevocationOf(v.value).id := RevocationOf(v.value).expiryTime])
    {
      var verified := Verify(signerKey, token, invalidated, nowMillis);
      if verified.Failure? {
        return Fail(verified.error);
      }
      var signedToken := verified.value;
      var jti := signedToken.claims.jti.value;
      var expiryTime := ToMillis(signedToken.claims.exp.value);
      var invalidatedToken := InvalidatedToken(jti, expiryTime);
      invalidated := invalidated[invalidatedToken.id := invalidatedToken.expiryTime];
      r := Pass;
    }
  }

  /** Login, introspect, logout, introspect and logout again on one token,
      within its lifetime: the token is valid, then revoked, and the second
      logout fails with UNAUTHENTICATED. */
  method LoginIntrospectLogout(
    signerKey: string, user: User, password: string, matches: (string, string) -> bool,
    issuedAtMillis: nat, clockMillis: nat, jti: string, nowMillis: int)
    returns (before: Result<bool, Thrown>, loggedOut: Outcome<Thrown>,
             after: Result<bool, Thrown>, again: Outcome<Thrown>)
    requires matches(password, user.password)
    requires nowMillis <= clockMillis + ValidityMillis - MillisPerSecond
    ensures before == Success(true)
    ensures loggedOut == Pass
    ensures after == Success(false)
    ensures again == Fail(AppError(Unauthenticated))
  {
    var service := new AuthenticationService(signerKey, map[user.username := user], map[]);
    var login := service.Authenticate(user.username, password, matches, issuedAtMillis, clockMillis, jti);
    var token := Parsed(login.value.token);
    IssuedTokenVerifiesWithinLifetime(signerKey, user, issuedAtMillis, clockMillis, jti, map[], nowMillis);
    before := service.Introspect(token, nowMillis);
    loggedOut := service.Logout(token, nowMillis);
    after := service.Introspect(token, nowMillis);
    again := service.Logout(token, nowMillis);
  }
}

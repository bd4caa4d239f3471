# Identity service: token lifecycle and date-of-birth check

A Dafny model of two parts of a Spring Boot identity service.

**Access tokens** (`AuthenticationService`). Login looks up the user, checks
the password and issues a JWT signed with HS512. The token carries the
claims `sub`, `iss` (`kaakaa.com`), `iat`, `exp` (one hour later), a random
`jti` and a `scope`. The scope is a space-delimited list: each role adds
`ROLE_<name>`, followed by that role's permission names.

Verification runs in this order:

1. Parse the token.
2. Check the HMAC signature.
3. Require `exp` to be strictly after now.
4. Only then look the `jti` up in the invalidated-token store.

Introspection turns the service's own exception into `valid = false`.
Logout verifies the token, then stores the record `jti ↦ expiry`.

**Date of birth** (`DobValidator`). A date is accepted when at least `min`
whole years lie between it and today. Years are counted the way
`ChronoUnit.YEARS.between` counts them.

Files:
- `wrappers.dfy`: null references and thrown exceptions (`Option`, `Result`, `Outcome`).
- `scope.dfy`: the scope builder. It is an imperative method with nested loops, proved against the token list `ScopeTokens` and the joiner `Join`.
- `jwt.dfy`: header, claims, and a symbolic signature. Timestamps are NumericDate seconds.
- `authentication.dfy`:
  - the pure decision `Verify` and the claim construction `Issue`;
  - the class `AuthenticationService`, whose fields are the user repository and the invalidated-token store (`map<string, int>`, `jti` to expiry in milliseconds);
  - the lemmas about the token lifecycle.
- `dob.dfy`: ISO dates, Java's truncating division, `YearsBetween` (the JDK's packed month count divided by 12), and the class `DobValidator`.

The service's external inputs become parameters:
- the two clock reads made while building the claims;
- the clock read during verification;
- the random `jti`;
- the BCrypt password check, as a function `matches`;
- "today" for the date check.

The HMAC is symbolic: a genuine signature is the term `Mac(key, header, claims)`. So a signature verifies under a key exactly when it was made with that key over that very header and claim set. That treats HMAC-SHA512 as a perfect MAC, which the real one is not in every case (see "## Left out").

Introspection might be expected to always answer, and logout to be idempotent; the code does neither, and the model follows the code:
- Introspection does not always answer. A token that does not parse, and a header whose algorithm is not an HMAC, raise exceptions that propagate; so do a verified token without `exp` and an unexpired one without `jti`.
- Logout is not idempotent. A second logout of the same token fails verification and throws UNAUTHENTICATED (`LoginIntrospectLogout`).
- A bad signature, an expired token and a revoked token all fail with the same error code, UNAUTHENTICATED.
- `exp` is a NumericDate, so the issue time plus one hour is rounded down to a whole second. A token therefore verifies for more than 3599 and at most 3600 seconds after the second clock read (`IssuedClaims`).
- `YEARS.between` truncates toward zero. A date of birth up to one year after today counts as zero years (`FutureWithinAYearCountsZero`).

## Model

| member | source | states |
|---|---|---|
| `ScopeBuilder.ScopeTokens` | src/main/java/com/ka/identity_service/service/AuthenticationService.java:160-178 | definition, no contract: the tokens the joiner receives, role by role in iteration order, each role giving `ROLE_<name>` then its permission names; null collections give none |
| `ScopeBuilder.Join` | src/main/java/com/ka/identity_service/service/AuthenticationService.java:156-180 | definition, no contract: what a `StringJoiner` with delimiter `" "` and no prefix or suffix yields, `""` for no parts |
| `ScopeBuilder.Scope` | src/main/java/com/ka/identity_service/service/AuthenticationService.java:153-181 | definition, no contract: the scope string of a user, the joined tokens of its (possibly null) role collection; the reference that `BuildScope` is proved against |
| `ScopeBuilder.BuildScope` | src/main/java/com/ka/identity_service/service/AuthenticationService.java:153-181 | the nested loops fill the joiner with exactly the scope tokens, so the result is `Scope(roles)`: `""` for null or empty roles; otherwise `ROLE_<name>` per role followed by its permission names, in iteration order, separated by single spaces |
| `ScopeBuilder.ScopeTokensAppend` | src/main/java/com/ka/identity_service/service/AuthenticationService.java:163-177 | the tokens of two role lists in a row are the tokens of the first, then those of the second (iteration order is kept) |
| `ScopeBuilder.ScopeTokensSnoc` | src/main/java/com/ka/identity_service/service/AuthenticationService.java:163-177 | one more role adds exactly its own tokens at the end |
| `ScopeBuilder.RoleTokensInPlace` | src/main/java/com/ka/identity_service/service/AuthenticationService.java:163-177 | role `i`'s prefixed name and its permission names come right after the tokens of the earlier roles and right before those of the later ones |
| `ScopeBuilder.ScopeEmptyIffNoRoles` | src/main/java/com/ka/identity_service/service/AuthenticationService.java:160-180 | the scope is `""` exactly when the role collection is null or empty |
| `ScopeBuilder.SplitJoin` | src/main/java/com/ka/identity_service/service/AuthenticationService.java:156-180 | splitting a space-joined list at spaces gives the list back, when no part holds a space |
| `ScopeBuilder.ScopeRoundTrip` | src/main/java/com/ka/identity_service/service/AuthenticationService.java:153-181 | for a user with roles and no space inside any name, splitting the scope at spaces gives back exactly the role and permission tokens in order |
| `ScopeBuilder.ScopeExample` | src/main/java/com/ka/identity_service/service/AuthenticationService.java:153-181 | roles ADMIN (USER_CREATE, USER_DELETE) and VIEWER (none) give `ROLE_ADMIN USER_CREATE USER_DELETE ROLE_VIEWER` |
| `Jwt.NumericDateRoundTrip` | src/main/java/com/ka/identity_service/service/AuthenticationService.java:112-120 | a date written as a NumericDate and read back loses less than one second and never moves later |
| `Authentication.Verify` | src/main/java/com/ka/identity_service/service/AuthenticationService.java:224-262 | definition, no contract: the model of `verifyToken`; parse, refuse a non-HMAC algorithm, check the signature, dereference `exp` and require it strictly after now, dereference `jti` and refuse it when it is in the store, in that order, each failure with the exception the code throws; the lemmas below state what it promises |
| `Authentication.Issue` | src/main/java/com/ka/identity_service/service/AuthenticationService.java:99-140 | definition, no contract: the model of `generateToken`'s header and claim construction and signing; `IssuedClaims` and `IssuedTokenVerifies` state what it promises |
| `Authentication.VerifyAcceptsExactlyActive` | src/main/java/com/ka/identity_service/service/AuthenticationService.java:224-262 | verification succeeds exactly for a parsed token with an HMAC algorithm, a valid signature, `exp` strictly after now and a `jti` present and not revoked; it then returns that token |
| `Authentication.ExpiredRejected` | src/main/java/com/ka/identity_service/service/AuthenticationService.java:236-250 | a genuinely signed token whose expiry is at or before now (`exp == now` included) fails with UNAUTHENTICATED, whatever the store holds |
| `Authentication.RevokedRejected` | src/main/java/com/ka/identity_service/service/AuthenticationService.java:247-255 | a token that passes the signature and expiry checks still fails with UNAUTHENTICATED when its `jti` is in the store |
| `Authentication.StoreConsultedOnlyAfterSignatureAndExpiry` | src/main/java/com/ka/identity_service/service/AuthenticationService.java:241-255 | unless the signature and expiry checks pass, the outcome does not depend on the store |
| `Authentication.RevocationMonotone` | src/main/java/com/ka/identity_service/service/AuthenticationService.java:253-255 | a token accepted against a store is accepted, with the same result, against any store with fewer revoked ids |
| `Authentication.RevokedStaysRejected` | src/main/java/com/ka/identity_service/service/AuthenticationService.java:193-255 | after the record logout makes for a verified token is stored, that token fails with UNAUTHENTICATED at any instant |
| `Authentication.IssuedClaims` | src/main/java/com/ka/identity_service/service/AuthenticationService.java:100-133 | an issued token has the header `HS512`, `sub` = username, `iat` = the first clock read in whole seconds (less than one second earlier, never later), `iss` = `kaakaa.com`, `jti` = the fresh id, `scope` = the user's scope, and an `exp` between 3599 and 3600 seconds after the second clock read |
| `Authentication.IssuedTokenVerifies` | src/main/java/com/ka/identity_service/service/AuthenticationService.java:99-149 | round trip: a token issued under a key verifies under that key, to itself, while now is before its `exp` and its `jti` is not revoked; its `sub` is the username |
| `Authentication.IssuedTokenVerifiesWithinLifetime` | src/main/java/com/ka/identity_service/service/AuthenticationService.java:116-120 | an issued token with an unrevoked `jti` verifies at any instant up to 3599 seconds after the second clock read |
| `Authentication.OtherKeyRejected` | src/main/java/com/ka/identity_service/service/AuthenticationService.java:229-241 | a token issued under one key fails with UNAUTHENTICATED under any other key |
| `Authentication.TamperedClaimsRejected` | src/main/java/com/ka/identity_service/service/AuthenticationService.java:233-250 | an issued token whose claim set is replaced by any other one fails with UNAUTHENTICATED and is never accepted |
| `Authentication.AuthenticationService.constructor` | src/main/java/com/ka/identity_service/service/AuthenticationService.java:44-49 | the service holds the signer key, the user repository (keyed by username) and the invalidated-token store it is given |
| `Authentication.AuthenticationService.Introspect` | src/main/java/com/ka/identity_service/service/AuthenticationService.java:53-79 | `valid` is true exactly when verification succeeds; it is false exactly when verification throws the service's own exception; any other exception propagates unchanged; the store is not modified |
| `Authentication.AuthenticationService.Authenticate` | src/main/java/com/ka/identity_service/service/AuthenticationService.java:82-97 | an unknown username fails with USER_NOT_EXISTED; a password mismatch fails with UNAUTHENTICATED; both fail before any token is made; otherwise the result is `authenticated = true` with the token `Issue` builds for that user, whose `sub` is the username |
| `Authentication.AuthenticationService.GenerateToken` | src/main/java/com/ka/identity_service/service/AuthenticationService.java:99-149 | builds the scope with `BuildScope`, then the claims, and signs them; the result is `Issue(...)`, validly signed under the service key, with `sub` the username |
| `Authentication.AuthenticationService.Logout` | src/main/java/com/ka/identity_service/service/AuthenticationService.java:186-218 | if verification fails, that failure is thrown and the store is unchanged; otherwise the store gains exactly the record `InvalidatedToken(jti, exp)` of the verified token (id `jti`, expiry `exp` in milliseconds), for a `jti` not there before; nothing else changes |
| `Authentication.LoginIntrospectLogout` | src/main/java/com/ka/identity_service/service/AuthenticationService.java:53-218 | within its lifetime, a freshly issued token introspects as valid; logout succeeds; it then introspects as invalid; a second logout throws UNAUTHENTICATED |
| `DobValidation.DobValidator.constructor` | src/main/java/com/ka/identity_service/validator/DobValidator.java:12 | before initialisation the least age is Java's default, 0 |
| `DobValidation.DobValidator.Initialize` | src/main/java/com/ka/identity_service/validator/DobValidator.java:34-37 | sets the least age to the annotation's `min` |
| `DobValidation.DobValidator.IsValid` | src/main/java/com/ka/identity_service/validator/DobValidator.java:18-27 | a null date is invalid; a date is valid iff at least `min` whole years separate it from today; for `min >= 1` that means it lies on or before the same month and day `min` years ago; `min` is not changed |
| `DobValidation.MonthsUntil` | src/main/java/com/ka/identity_service/validator/DobValidator.java:24 | definition, no contract: whole months between two dates as the JDK counts them, the difference of the dates packed as `(year*12 + month - 1)*32 + day`, divided by 32 with truncation toward zero |
| `DobValidation.YearsBetween` | src/main/java/com/ka/identity_service/validator/DobValidator.java:24 | definition, no contract: `ChronoUnit.YEARS.between`, the whole months divided by 12 with truncation toward zero; `YearsBetweenCountsFullYears` and the lemmas below state what it means |
| `DobValidation.YearsBetweenCountsFullYears` | src/main/java/com/ka/identity_service/validator/DobValidator.java:24 | for a date on or before today, the count is the year difference less one when today's month and day come before the birthday's |
| `DobValidation.BirthdayBoundary` | src/main/java/com/ka/identity_service/validator/DobValidator.java:24-26 | the same month and day exactly `n` years before today counts exactly `n` years, so it is accepted when `n = min` |
| `DobValidation.AcceptsIffOnOrBeforeCutoff` | src/main/java/com/ka/identity_service/validator/DobValidator.java:24-26 | for `min >= 1`, a date is accepted exactly when it is on or before the same day `min` years ago; the boundary is accepted and the day after is rejected |
| `DobValidation.EarlierBirthAlsoAccepted` | src/main/java/com/ka/identity_service/validator/DobValidator.java:24-26 | for a fixed today and any `min`, every date of birth earlier than an accepted one is accepted |
| `DobValidation.FutureWithinAYearCountsZero` | src/main/java/com/ka/identity_service/validator/DobValidator.java:24 | a date of birth from today up to one year later counts zero years, because the division truncates toward zero |

## Left out

- HMAC-SHA512, base64url and JSON serialization are left out; signatures are symbolic terms. The model therefore says nothing about how secret the key is. A presented token is either a parsed signed JWT or text that does not parse; an `alg` of `none` is text that does not parse.
- Authentication.OtherKeyRejected: assumes a perfect MAC. HMAC (RFC 2104) pads a key shorter than the 128-byte SHA-512 block with zero bytes, so a key and the same key followed by a NUL character give the same tag; `getBytes()` can also map two different key strings to the same bytes. The lemma holds only for keys whose padded key bytes differ.
- Authentication.TamperedClaimsRejected: assumes no HMAC-SHA512 collisions between two claim sets under one key; the real guarantee is computational, not absolute.
- Parse failures are not told apart: text that is not a JWS and a payload that is not a claim set both throw ParseException and are one case in the model.
- Signer-key length checks are left out. The signer and verifier throw JOSEException on a key too short for the algorithm; the key is assumed long enough. So the path where `generateToken` turns a signing failure into a RuntimeException is not modelled.
- Only `exp` and `jti` may be absent from a presented claim set, because only those two are dereferenced on the verification path. `sub`, `iss`, `iat` and `scope` are always present in the model.
- BCrypt matching is the parameter `matches`; the model does not hash.
- `UUID.randomUUID()` and the clock reads are parameters. The model does not enforce `jti` uniqueness. The lemmas that need a fresh `jti` require that it is not in the store.
- The JPA repositories are maps. The model does not cover durability, transactions or concurrent access to the store.
- A failure of the store itself (`existsById` or `save` throwing) is not modelled. In the code that exception propagates out of `introspect` and `logout`, so the token is refused rather than accepted.
- Nothing prunes expired records from the store, in the source or in the model.
- A null role name or permission name is not modelled. Java would concatenate the text `null`; names in the model are strings.
- Java's `long` and `int` widths are not modelled. Years, months and packed dates stay far inside `long`, and `min` is compared after widening, so no overflow occurs.
- The range limits of `LocalDate` (years ±999,999,999) are not modelled.
- The JWT decoder adapter, the security filter chain, the controllers, the mappers, the DTO and entity classes, the application class and the test classes are framework glue; they are not part of this model. The decoder adapter discards the introspection result, so protected requests do not check revocation.
- Of the `DobConstraint` annotation, only `min` is modelled. Its `message`, `groups` and `payload` are read by the validation framework, not by the validator.

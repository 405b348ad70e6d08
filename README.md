# Credential lifecycle of a Go JWT authentication service, in Dafny

This project models the decision logic of a small Go (gin + GORM) authentication
service: registration, login, password change, the forgot-password / verify-OTP /
reset-password flow, profile read and update, the JWT configuration and claims,
and the request validation done by the binding tags. HTTP, the database driver,
SMTP and the crypto libraries are replaced by values passed in.

- `wrappers.dfy` (`Wrappers`): `Option` and `Result`.
- `passwords.dfy` (`Passwords`): bcrypt as a hash `Hash` and a check `Verify`. `Hash` is a deterministic, injective stand-in. It keeps bcrypt's `$2a$10$` header. The model relies on `Verify(Hash(p), q) <==> p == q`, on `Hash(p) != p` and on `Hash(p) != ""`. These hold of the stand-in, not in full of bcrypt (see "## Left out").
- `names.dfy` (`Names`): Go's `unicode.IsSpace`, `strings.Fields`, `strings.Join` and `strings.TrimSpace`, plus Register's first/last-name resolution.
- `models.dfy` (`Models`): the `User` row, the request and response types, and the binding tags as predicates. It also holds the table invariant: rows keyed by their unique, well-formed e-mail, with unique ids.
- `token.dfy` (`Token`): `Init`'s configuration as a class (`TokenSettings`), `strconv.Atoi`, and the claims `GenerateToken` issues, including the 64-bit `time.Duration` product. It also holds `ParseToken`'s acceptance rule and `GenerateRandomToken` (an in-place byte buffer, hex-encoded).
- `controllers.dfy` (`Controllers`): class `UserTable`, the users table as a map from e-mail to row. Every handler is a method that returns the HTTP status and JSON body. Handlers that write the table `modify` it and state its whole new state.
- `scenarios.dfy` (`Scenarios`): client call sequences. They cover the register, login, change-password and profile round, once with the token settings `main` initialises and once with the uninitialised settings the integration test runs with. They also cover duplicate registration and the reset flow's state machine. `Authenticate` stands for the auth middleware's reading of the bearer token.

Each handler takes its collaborators as parameters:
- the clock `now`, in Unix seconds;
- `hashOk`, whether bcrypt succeeded;
- the generated OTP (`None` when generation failed);
- `sent`, whether the e-mail went out;
- the identity the auth middleware put in the request context.

Behaviour of the code worth knowing (modelled as written):
- Forgot-password on an unknown address answers 200. The body carries the lookup error's text, `record not found`, so the body tells whether the address is registered. The status is uniform only while OTP generation and sending succeed (`Scenarios.ForgotPasswordStatusIsUniform` assumes both). When any SMTP variable is unset, `SendEmail` fails (`utils/email.go:17-19`). Every known address then gets 500 and every unknown one 200.
- Register issues its token for user id 32, not for the new row's id.
- A duplicate e-mail is answered 400, not 409.
- ResetPassword clears the OTP but keeps its expiry.
- ResetPassword's `confirm_password` carries `eqfield=NewPassword`. A mismatch is therefore rejected by binding (400, no body). The handler's own mismatch check at `controllers/auth_controller.go:271` is never reached.
- When hashing fails, ResetPassword ignores the error and stores the empty digest. No password verifies against it.
- Only the numeric-OTP reset flow exists in these handlers.
- The `User` model declares no `ResetOTP`/`ResetExpiry` fields, yet the handlers use them. The model adds them. A new row has an empty OTP and an expiry at Go's zero time, which is before any clock reading.
- A `JWT_EXPIRATION_HOURS` value outside -2562047..2562047 makes the 64-bit nanosecond product wrap around, periodically:
  - 2562048 hours issues tokens already expired (`Token.ExpiresAfterWraps`);
  - 5124096 hours gives a window of 1526 seconds (`Token.ExpiresAfterWrapsAround`);
  - -2562048 hours gives a window of about 292 years (`Token.ExpiresAfterWrapsNegative`).
- A window of zero or fewer hours within that range issues tokens that are already expired (`Token.NonPositiveWindowExpiredAtIssue`).
- A setting that is not a plain decimal integer, such as `12h`, falls back to 24 hours.
- The integration test (`controllers/auth_integration_test.go:20-101`) never calls `utils.Init`. Its handlers therefore sign with an empty key and a 0-hour window. The login token is expired when issued, so the password change and the profile read are refused with 401 (`Scenarios.RegisterLoginChangeProfileBeforeInit`). This holds if the middleware, which is not part of this model, rejects a token that fails `ParseToken`.

## Model

| member | source | states |
|---|---|---|
| `Passwords.Hash` | controllers/auth_controller.go:49 | the stand-in for `bcrypt.GenerateFromPassword`: a digest that starts with the `$2a$10$` header (algorithm 2a, cost 10) and encodes the password |
| `Passwords.Verify` | controllers/auth_controller.go:103 | the stand-in for `bcrypt.CompareHashAndPassword`: succeeds exactly on the digest of the password (`VerifyHashIff`) |
| `Passwords.VerifyHashIff` | controllers/auth_controller.go:103-106 | a stored digest verifies exactly the password it was made from |
| `Passwords.HashIsNotPlaintext` | controllers/auth_controller.go:49-62 | the stored password hash is never the plaintext |
| `Passwords.EmptyDigestVerifiesNothing` | controllers/auth_controller.go:287-288 | the empty digest left by an ignored hashing error verifies no password |
| `Names.IsSpace` | controllers/auth_controller.go:28 | Go's `unicode.IsSpace`: the Unicode White_Space set, which `strings.Fields` and `strings.TrimSpace` split and trim on |
| `Names.WordLen` | controllers/auth_controller.go:28 | the length of the longest white-space-free prefix: no space before it, a space or the end at it |
| `Names.Fields` | controllers/auth_controller.go:28 | every field is non-empty and free of white space |
| `Names.LeadingSpace` | controllers/auth_controller.go:60 | the length of the white-space run a string starts with: all white space before it, none at it |
| `Names.TrailingSpace` | controllers/auth_controller.go:60 | the length of the white-space run a string ends with: all white space after it, none just before it |
| `Names.TrimSpace` | controllers/auth_controller.go:60 | the result is a slice of the input with only white space before and after it, and it neither starts nor ends with white space |
| `Names.TrimSpaceIsThatSlice` | controllers/auth_controller.go:60 | that slice is unique: any slice with only white space around it and none at its ends is the result |
| `Names.Join` | controllers/auth_controller.go:33 | `strings.Join`: the words with the separator between them; `FieldsOfJoin` is its inverse |
| `Names.ResolveName` | controllers/auth_controller.go:23-40 | rejection exactly when first, last and name are all empty; explicit first/last names are used as given |
| `Names.FieldsOfJoin` | controllers/auth_controller.go:28-34 | splitting words joined by single spaces gives the words back |
| `Names.FieldsEmptyIff` | controllers/auth_controller.go:28-35 | a name has no fields exactly when it is all white space |
| `Names.JoinSplitLast` | controllers/auth_controller.go:33-34 | joining all words equals joining all but the last, a space, and the last |
| `Names.ResolveBlankName` | controllers/auth_controller.go:26-39 | a white-space-only legacy name is accepted and gives empty first and last names |
| `Names.FieldsSkipsSpaces` | controllers/auth_controller.go:28 | leading white space does not change the fields |
| `Names.ResolveOneWord` | controllers/auth_controller.go:29-31 | a legacy name made of one word with only white space around it becomes that word as first name with an empty last name |
| `Names.FieldsOfSpaced` | controllers/auth_controller.go:28 | words separated by any non-empty white-space runs, and followed by white space, split back into exactly those words |
| `Names.FieldsOfSpacedName` | controllers/auth_controller.go:28 | white space of any kind and length before, between and after the words does not change the fields |
| `Names.ResolveManyWords` | controllers/auth_controller.go:28-34 | a legacy name of several words with any white space around and between them: all but the last word, joined by single spaces, are the first name; the last word is the last name |
| `Names.StoredNameIsNormalisedLegacyName` | controllers/auth_controller.go:23-60 | registering with a legacy name stores as `Name` its fields joined by single spaces |
| `Names.AliceIsAOneWordName` | controllers/auth_integration_test.go:55-63 | the test's name "Alice" resolves to first name "Alice", empty last name |
| `Models.IsEmail` | models/user.go:19 | the `email` validator, approximated: exactly one '@' with text on both sides and no white space |
| `Models.ValidRegisterRequest` | models/user.go:14-20 | the binding tags of a register request |
| `Models.ValidLoginRequest` | models/user.go:23-26 | the binding tags of a login request |
| `Models.ValidChangePasswordRequest` | models/user.go:28-31 | the binding tags of a change-password request |
| `Models.ValidRegisterRequestIff` | models/user.go:14-20 | a register request binds exactly when the e-mail is well formed and the password has at least 6 characters; names are optional |
| `Models.ValidLoginRequestIff` | models/user.go:23-26 | a login request binds exactly when the e-mail is well formed and the password is non-empty |
| `Models.ValidChangePasswordRequestIff` | models/user.go:28-31 | a change-password request binds exactly when the current password is non-empty and the new one has at least 6 characters |
| `Models.EmailFromParts` | models/user.go:19 | local@domain with no '@' or white space in either part passes the `email` check |
| `Models.DetailedView` | controllers/auth_controller.go:71-78 | the response user carries the row's id, e-mail and names, an empty username, `email_verified` false, and no password field |
| `Models.DetailedViewIgnoresSecrets` | models/user.go:51-59 | the response user does not depend on the password hash or the reset state |
| `Models.EmailsAreUnique` | models/user.go:10 | no two rows of a well-formed table share an e-mail |
| `Models.InsertKeepsInvariant` | controllers/auth_controller.go:42-65 | adding a row under an unused e-mail with the next id keeps e-mails and ids unique |
| `Models.ReplaceKeepsInvariant` | controllers/auth_controller.go:288-290 | saving a row with its own id and e-mail keeps e-mails and ids unique |
| `Models.EmailWithIdIsUnique` | controllers/user_controller.go:24 | the row found by primary key is the only row with that id |
| `Token.Atoi` | utils/token.go:25 | a value is returned exactly for an optional sign followed by one or more digits whose value fits in 64 bits, and it is that value |
| `Token.AtoiItoa` | utils/token.go:25 | every 64-bit integer written in decimal is read back unchanged |
| `Token.SigningKey` | utils/token.go:17-21 | the key is JWT_SECRET when that is non-empty and "Change_This_SecretKey" otherwise; never empty |
| `Token.ExpirationHours` | utils/token.go:23-29 | 24 unless JWT_EXPIRATION_HOURS parses as an integer, in which case that integer |
| `Token.ExpirationHoursFallsBack` | utils/token.go:23-29 | an unset setting or one that is not a plain decimal integer gives 24 hours |
| `Token.HoursWithUnitFallBack` | utils/token.go:23-29 | a number of hours written with an `h` suffix is not read: the window is 24 hours |
| `Token.ExpirationHoursOfDecimal` | utils/token.go:23-29 | any integer setting, zero and negative included, is taken as written |
| `Token.TokenSettings.constructor` | utils/token.go:13-14 | before Init the key is empty and the window is 0 |
| `Token.TokenSettings.Init` | utils/token.go:16-30 | Init stores the fallback key and the parsed-or-default window |
| `Token.ExpiresAfterInRange` | utils/token.go:41 | for windows up to 2562047 hours, exp is exactly now + hours * 3600 seconds |
| `Token.ExpiresAfter` | utils/token.go:41 | the exp claim: now plus the 64-bit nanosecond product truncated to seconds; `ExpiresAfterInRange` gives its value within range |
| `Token.ExpiresAfterWraps` | utils/token.go:41 | one hour more and the Duration product wraps: exp falls before now |
| `Token.ExpiresAfterWrapsAround` | utils/token.go:41 | the wrap-around is periodic: 5124096 hours gives a 1526-second window |
| `Token.ExpiresAfterWrapsNegative` | utils/token.go:41 | -2562048 hours wraps the other way: exp is 9223371273 seconds (about 292 years) after now |
| `Token.GenerateToken` | utils/token.go:37-47 | an HS256 token signed with the key, carrying the user id, iat = now and exp = now + hours * 3600 |
| `Token.ParseToken` | utils/token.go:49-63 | claims are returned exactly for a decoded token of an HMAC algorithm, validly signed under the key, before exp; other algorithms are rejected at the key lookup |
| `Token.IssuedTokenLifetime` | utils/token.go:37-63 | an issued token is accepted until its window elapses and rejected as expired afterwards |
| `Token.NonPositiveWindowExpiredAtIssue` | utils/token.go:37-63 | a window of zero or fewer hours, 0 being the value before Init, gives tokens rejected as expired from their issue time on |
| `Token.OtherKeyRejected` | utils/token.go:54-58 | a token is rejected under any other key (of the abstract signature; see "## Left out") |
| `Token.AnyHmacAccepted` | utils/token.go:51-54 | HS384 and HS512 tokens are accepted as well as HS256 |
| `Token.HexEncode` | utils/token.go:68 | two lower-case hex digits per byte |
| `Token.HexDecodeEncode` | utils/token.go:68 | decoding the hex text gives the bytes back |
| `Token.GenerateRandomToken` | utils/token.go:65-69 | 2n lower-case hex digits that decode to the n random bytes read |
| `Controllers.ValidForgotPasswordEmail` | controllers/auth_controller.go:184-186 | the binding tags of a forgot-password request |
| `Controllers.ValidVerifyOtpRequest` | controllers/auth_controller.go:235-238 | the binding tags of a verify-OTP request |
| `Controllers.ValidResetPasswordRequest` | controllers/auth_controller.go:259-264 | the binding tags of a reset request, `eqfield` on the confirmation included |
| `Controllers.OtpAccepted` | controllers/auth_controller.go:250 | the OTP check of VerifyOTP and ResetPassword: equal codes and the clock not after the expiry; `IssuedOtpWindow` and `ClearedOtpAcceptsNothing` state its consequences |
| `Controllers.ProfileOf` | controllers/user_controller.go:29-35 | the profile is exactly id, first name, last name and e-mail |
| `Controllers.ProfileIgnoresSecrets` | controllers/user_controller.go:29-35 | the profile does not depend on the password hash or the reset state |
| `Controllers.NewUser` | controllers/auth_controller.go:57-63 | the new row's hash verifies the password and is not the plaintext; Name is the trimmed "first last"; no OTP; expired reset time |
| `Controllers.ClearedOtpAcceptsNothing` | controllers/auth_controller.go:282-289 | after a reset clears the OTP no non-empty code is accepted |
| `Controllers.IssuedOtpWindow` | controllers/auth_controller.go:211-250 | a code just issued is accepted exactly until 15 minutes have passed, the end included |
| `Controllers.NewUserHasNoPendingReset` | controllers/auth_controller.go:57-63 | a new row accepts no reset code |
| `Controllers.ConfirmationMismatchIsInvalid` | controllers/auth_controller.go:259-264 | a confirmation unequal to the new password fails binding |
| `Controllers.RegisterTrimsUpdateDoesNot` | controllers/user_controller.go:59 | with an empty last name Register stores the first name alone, UpdateProfile the first name and a trailing space |
| `Controllers.UserTable.constructor` | models/user.go:5-12 | an empty, well-formed table |
| `Controllers.UserTable.FindById` | controllers/user_controller.go:24 | finds the row with the given primary key exactly when there is one |
| `Controllers.UserTable.Register` | controllers/auth_controller.go:16-88 | 400 with no body on failed binding; 400 when no name is given; 400 "email already in use" for a taken e-mail; 500 on hashing failure; all of these leave the table unchanged. Otherwise 201, exactly one row added under the e-mail with the next id and Hash(password), and a token for user 32 |
| `Controllers.UserTable.Login` | controllers/auth_controller.go:90-133 | unknown e-mail and wrong password give the same 401 "invalid credentials"; otherwise 200 with the user and a token for the user's id; the table is never written |
| `Controllers.UserTable.ChangePassword` | controllers/auth_controller.go:135-181 | 401 without an identity or with a non-uint one, 404 for an unknown id, 401 on a wrong current password, 500 on hashing failure; on 200 only that row's hash changes, to Hash(new) |
| `Controllers.UserTable.ForgotPassword` | controllers/auth_controller.go:183-232 | unknown e-mail: 200 "record not found", nothing changes; known e-mail: OTP and expiry now + 15 min are saved before sending, so a failed send answers 500 with the OTP stored |
| `Controllers.UserTable.VerifyOtp` | controllers/auth_controller.go:234-256 | 200 exactly when the row exists, its OTP equals the code and the clock is not after the expiry; the table is never written |
| `Controllers.UserTable.ResetPassword` | controllers/auth_controller.go:258-293 | a mismatched confirmation is 400; on a matching, unexpired OTP the hash becomes Hash(new) and the OTP is cleared, the expiry untouched; otherwise nothing changes |
| `Controllers.UserTable.GetProfile` | controllers/user_controller.go:16-36 | 401 without an identity, 404 for an unknown id, otherwise 200 with that row's profile |
| `Controllers.UserTable.UpdateProfile` | controllers/user_controller.go:38-76 | 404 for an unknown id; otherwise only that row's names change: non-empty inputs replace them, Name becomes first + " " + last untrimmed |
| `Scenarios.AliceAddressIsAnEmail` | controllers/auth_integration_test.go:55 | the test's address passes the `email` check |
| `Scenarios.RegisterFirstUser` | controllers/auth_controller.go:16-88 | registering a one-word name on an empty table stores exactly one row, id 1, and answers 201 with a token for user 32 |
| `Scenarios.Authenticate` | utils/token.go:32-63 | the identity a handler reads from the context (controllers/auth_controller.go:144-154): the `uint` `UserID` claim of a token that `ParseToken` accepts under the key, none otherwise (the middleware itself is not part of this model) |
| `Scenarios.LoginChangeProfile` | controllers/auth_controller.go:90-181 | with that row stored and a positive window, login gives a token for user 1 that authorises a password change and a profile read, all 200 |
| `Scenarios.ExpiredLoginIsUnauthorized` | controllers/auth_controller.go:90-181 | with that row stored and a window of at most 0 hours, login still gives 200, but its token is rejected as expired and the password change and profile read get 401 |
| `Scenarios.RegisterLoginChangeProfile` | cmd/main.go:16-27 | with the settings Init reads and a positive window: register 201 (token for user 32), login 200 (token for user 1 signed with the configured key, expiring after the configured window), password change 200 and profile 200 with no password field |
| `Scenarios.RegisterLoginChangeProfileBeforeInit` | controllers/auth_integration_test.go:20-101 | without Init (empty key, 0-hour window), as in the test: register 201 and login 200, but the login token is expired at issue and the password change and profile read get 401 |
| `Scenarios.RegisterTwice` | controllers/auth_controller.go:42-46 | the same e-mail registers once; the second attempt is 400 "email already in use" |
| `Scenarios.ForgotPasswordStatusIsUniform` | controllers/auth_controller.go:197-231 | with the OTP generated and sent, unknown and known e-mails both answer 200, only the known one changes the table, and the bodies differ |
| `Scenarios.OtpSurvivesFailedSend` | controllers/auth_controller.go:211-227 | after a failed send (500) the stored OTP still verifies |
| `Scenarios.OtpIsSingleUse` | controllers/auth_controller.go:258-293 | a reset with a fresh OTP succeeds; replaying it before expiry is rejected |

## Left out

- HTTP and gin: routing, JSON encoding and decoding, and malformed JSON are not modelled. Binding is modelled by the validation predicates. A failed `BindJSON` answers 400 with no body. Forgot-password instead answers with the validator's message, which the model keeps as `BindError` without its text.
- routes/routes.go, cmd/main.go, config/config.go and database/database.go are plumbing and are not part of this model.
- The auth middleware is not part of this model. Its result is passed in as an `Identity`.
- GORM's own failures are not modelled: a failing `Create` (the "email already in use or invalid" answer, reachable only under a concurrent duplicate), a failing `Update`, and the unchecked `Save` results. The table always accepts writes.
- Concurrency: requests run one at a time on the table. The store's uniqueness constraint under racing registrations is not modelled.
- Timestamps are not modelled: `gorm.Model`'s CreatedAt, UpdatedAt and DeletedAt, and the `created_at` and `updated_at` response fields that format them.
- Login's token-signing error branch (500 "could not generate token") is not modelled. Signing an HS256 token with a byte-slice key does not fail. Register ignores that error anyway.
- Passwords.Hash: bcrypt compares only the first 72 bytes of a password, so a longer password also verifies with any suffix changed. The stand-in distinguishes all passwords. Its `Hash(p) != p` and `Hash(p) != ""` hold of real digests too.
- Controllers.UserTable.ResetPassword: the bcrypt error it ignores includes `ErrPasswordTooLong`, which recent `golang.org/x/crypto` versions return for a password over 72 bytes. The `hashOk == false` branch models that case: the empty digest is stored, the answer is 200, and no password verifies afterwards (`Passwords.EmptyDigestVerifiesNothing`), so the account is locked until the next reset. In Register and ChangePassword the same error is checked and answers 500, also the `hashOk == false` branch. The model does not tie `hashOk` to the password's length.
- Token.OtherKeyRejected: holds of the abstract signature. In HMAC some distinct keys are equivalent: a key is zero-padded to the block size, and a longer key is hashed first.
- Token.GenerateRandomToken: requires `0 <= n`. For a negative n the source's `make([]byte, n)` panics, which is not modelled.
- Scenarios.ForgotPasswordStatusIsUniform: assumes OTP generation and the e-mail send succeed. With SMTP unset, known addresses get 500 and unknown ones 200.
- Cryptography: bcrypt's salt, cost and internals, HMAC-SHA256, the compact JWS serialisation and JSON decoding of claims are abstract. A signature is the value `Sign(alg, key, claims)`. Hashing failure is the parameter `hashOk`.
- Token claims: tokens without an `exp` claim, validation leeway, and `time.Time` saturation at extreme dates are not modelled. The clock is whole Unix seconds. `GenerateToken` reads the clock twice in the source; the model reads it once.
- utils/email.go (SMTP over TLS) is not part of this model. Its outcome is the parameter `sent`.
- `utils.GenerateOTP` is not part of this model. Its result, or `None` for its failure, is a parameter.
- Randomness: `crypto/rand` is the byte sequence passed to `GenerateRandomToken`. `rand.Read`'s error is ignored in the source and not modelled.
- Strings are sequences of Unicode code points. Go's byte strings, and their invalid UTF-8, are not modelled.
- `min=6` counts code points, as the validator counts runes.
- The integration test reads `token` at the top level of the login response, while Login nests it under `success.data`; read that way the test finds no token. The scenario takes the token Login actually returns.
- Models.IsEmail: approximates the validator's full address grammar. It requires exactly one '@' with text on both sides and no white space.
- Controllers.UserTable.UpdateProfile: takes the user id as present, as on its authenticated route. The source reads the context value without checking it, and GORM's lookup with a missing id is not modelled.
- Controllers.UserTable.GetProfile: an identity that is not an unsigned integer is answered 404 as an unknown id. GORM's handling of such a primary-key value is not modelled.

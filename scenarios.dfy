/**
 * Sequences of handler calls, as a client sees them: the integration test's
 * register, login, change-password and profile round, and the reset flow's
 * state machine.
 */
module Scenarios {
  import opened Wrappers
  import opened Names
  import opened Passwords
  import opened Models
  import opened Token
  import opened Controllers

  /** The integration test's address is well formed. */
  lemma AliceAddressIsAnEmail()
    ensures IsEmail("alice@example.com")
  {
    assert "alice@example.com" == "alice" + "@" + "example.com";
    assert '@' !in "alice" && '@' !in "example.com";
    assert IsWord("alice") && IsWord("example.com");
    EmailFromParts("alice", "example.com");
  }

  /** Registering a one-word legacy name on an empty table creates row 1. */
  method RegisterFirstUser(name: string, email: string, password: string, cfg: TokenConfig, now: int)
    returns (table: UserTable, registered: Response)
    requires IsWord(name) && IsEmail(email) && |password| >= MinPasswordLength
    ensures fresh(table) && table.Valid()
    ensures table.users.Keys == {email}
    ensures table.users[email] == NewUser(1, NameParts(name, ""), email, password)
    ensures registered.status == StatusCreated && registered.body.AuthSuccess?
    ensures registered.body.user.id == 1 && registered.body.token.claims.userId == 32
  {
    table := new UserTable();
    var req := RegisterRequest("", "", name, email, password);
    assert ResolveName("", "", name) == Some(NameParts(name, "")) by {
      ResolveOneWord("", name, "");
      assert "" + name + "" == name;
    }
    registered := table.Register(req, true, cfg, now);
  }

  /**
   * The auth middleware's reading of a bearer token: the user id of a token
   * that parses under the key, and no identity otherwise. The middleware
   * package is not part of this model; this is the behaviour the handlers'
   * identity checks assume.
   */
  function Authenticate(bearer: Jwt, key: string, now: int): (uid: Identity)
    ensures uid.UintId? <==> ParseToken(Encoded(bearer), key, now).Success?
    ensures uid.UintId? ==> uid.id == bearer.claims.userId
    ensures uid.NoIdentity? || uid.UintId?
  {
    match ParseToken(Encoded(bearer), key, now)
    case Success(claims) => UintId(claims.userId)
    case Failure(_) => NoIdentity
  }

  /**
   * With that one row stored: logging in gives 200 and a token for user 1, and
   * the token, read by the auth middleware, authorises a password change and a
   * profile read.
   */
  method LoginChangeProfile(table: UserTable, name: string, email: string, password: string,
                            newPassword: string, cfg: TokenConfig, now: int)
    returns (loggedIn: Response, changed: Response, profile: Response)
    requires table.Valid() && table.users.Keys == {email}
    requires table.users[email] == NewUser(1, NameParts(name, ""), email, password)
    requires IsEmail(email) && password != "" && |newPassword| >= MinPasswordLength
    requires 1 <= cfg.expirationHours <= MaxHours
    modifies table
    ensures loggedIn.status == StatusOK && loggedIn.body.AuthSuccess?
    ensures loggedIn.body.token == GenerateToken(cfg, 1, now)
    ensures changed == Response(StatusOK, Message("password updated"))
    ensures profile == Response(StatusOK, ProfileBody(Profile(1, name, "", email)))
  {
    loggedIn := table.Login(LoginRequest(email, password), cfg, now);
    var uid := Authenticate(loggedIn.body.token, cfg.key, now);
    assert uid == UintId(1) by {
      IssuedTokenLifetime(cfg, 1, now, now);
    }
    assert HasId(table.users, 1) && EmailWithId(table.users, 1) == email by {
      EmailWithIdIsUnique(table.users, table.nextId, 1, email);
    }
    changed := table.ChangePassword(ChangePasswordRequest(password, newPassword), uid, true);
    assert table.users.Keys == {email} && table.users[email].id == 1;
    assert HasId(table.users, 1) && EmailWithId(table.users, 1) == email by {
      EmailWithIdIsUnique(table.users, table.nextId, 1, email);
    }
    profile := table.GetProfile(uid);
  }

  /**
   * The server as started by main: Init reads JWT_SECRET and
   * JWT_EXPIRATION_HOURS (unset, the window is 24 hours). On an empty table,
   * registering gives 201 with a token for user 32 rather than for the new
   * row's id 1; login gives 200 and a token for user 1 signed with the
   * configured key and expiring after the configured window; that token
   * authorises a password change and a profile read.
   */
  method RegisterLoginChangeProfile(name: string, email: string, password: string,
                                    newPassword: string, secretEnv: string, hoursEnv: string, now: int)
    returns (registered: Response, loggedIn: Response, changed: Response, profile: Response)
    requires IsWord(name) && IsEmail(email)
    requires |password| >= MinPasswordLength && |newPassword| >= MinPasswordLength
    requires 1 <= ExpirationHours(hoursEnv) <= MaxHours
    ensures registered.status == StatusCreated && loggedIn.status == StatusOK
    ensures registered.body.AuthSuccess? && registered.body.user.id == 1
    ensures registered.body.token.claims.userId == 32
    ensures loggedIn.body.AuthSuccess? && loggedIn.body.token.claims.userId == 1
    ensures SignatureValid(loggedIn.body.token, SigningKey(secretEnv))
    ensures loggedIn.body.token.claims.expiresAt == now + ExpirationHours(hoursEnv) * 3600
    ensures changed == Response(StatusOK, Message("password updated"))
    ensures profile == Response(StatusOK, ProfileBody(Profile(1, name, "", email)))
  {
    var settings := new TokenSettings();
    settings.Init(secretEnv, hoursEnv);
    var cfg := settings.Config();
    var table;
    table, registered := RegisterFirstUser(name, email, password, cfg, now);
    loggedIn, changed, profile := LoginChangeProfile(table, name, email, password, newPassword, cfg, now);
  }

  /**
   * With that one row stored but a window of at most 0 hours: login still gives
   * 200, but its token is expired when it is issued, so the middleware finds no
   * identity and the password change and the profile read are refused with 401.
   */
  method ExpiredLoginIsUnauthorized(table: UserTable, name: string, email: string, password: string,
                                    newPassword: string, cfg: TokenConfig, now: int)
    returns (loggedIn: Response, changed: Response, profile: Response)
    requires table.Valid() && table.users.Keys == {email}
    requires table.users[email] == NewUser(1, NameParts(name, ""), email, password)
    requires IsEmail(email) && password != "" && |newPassword| >= MinPasswordLength
    requires -MaxHours <= cfg.expirationHours <= 0
    modifies table
    ensures loggedIn.status == StatusOK && loggedIn.body.AuthSuccess?
    ensures ParseToken(Encoded(loggedIn.body.token), cfg.key, now) == Failure(TokenExpired)
    ensures changed.status == StatusUnauthorized && profile.status == StatusUnauthorized
  {
    loggedIn := table.Login(LoginRequest(email, password), cfg, now);
    NonPositiveWindowExpiredAtIssue(cfg, 1, now, now);
    var uid := Authenticate(loggedIn.body.token, cfg.key, now);
    changed := table.ChangePassword(ChangePasswordRequest(password, newPassword), uid, true);
    profile := table.GetProfile(uid);
  }

  /**
   * The same calls on handlers whose token settings were never initialised:
   * the empty key and a window of 0 hours. Register and login still succeed,
   * but the login token is expired when it is issued, and the password change
   * and the profile read are refused with 401.
   */
  method RegisterLoginChangeProfileBeforeInit(name: string, email: string, password: string,
                                              newPassword: string, now: int)
    returns (registered: Response, loggedIn: Response, changed: Response, profile: Response)
    requires IsWord(name) && IsEmail(email)
    requires |password| >= MinPasswordLength && |newPassword| >= MinPasswordLength
    ensures registered.status == StatusCreated && loggedIn.status == StatusOK
    ensures loggedIn.body.AuthSuccess?
    ensures ParseToken(Encoded(loggedIn.body.token), "", now) == Failure(TokenExpired)
    ensures changed.status == StatusUnauthorized && profile.status == StatusUnauthorized
  {
    var settings := new TokenSettings();
    var cfg := settings.Config();
    var table;
    table, registered := RegisterFirstUser(name, email, password, cfg, now);
    loggedIn, changed, profile := ExpiredLoginIsUnauthorized(table, name, email, password, newPassword, cfg, now);
  }

  /** Registering an address that is already taken fails and changes nothing. */
  method RegisterTwice(t: UserTable, req: RegisterRequest, cfg: TokenConfig, now: int)
    returns (first: Response, second: Response)
    requires t.Valid() && ValidRegisterRequest(req) && req.email !in t.users
    requires ResolveName(req.firstName, req.lastName, req.name).Some?
    modifies t
    ensures t.Valid()
    ensures first.status == StatusCreated
    ensures second == Response(StatusBadRequest, ErrorMsg("email already in use"))
    ensures t.users.Keys == old(t.users.Keys) + {req.email}
  {
    first := t.Register(req, true, cfg, now);
    second := t.Register(req, true, cfg, now);
  }

  /**
   * Forgot-password answers 200 for an unknown address and for a known one whose
   * mail went out; only the known one changes the table, and the messages differ.
   */
  method ForgotPasswordStatusIsUniform(t: UserTable, known: string, unknown: string, otp: string, now: int)
    returns (forUnknown: Response, forKnown: Response)
    requires t.Valid() && known in t.users && unknown !in t.users
    requires IsEmail(known) && IsEmail(unknown)
    modifies t
    ensures forUnknown.status == StatusOK == forKnown.status
    ensures forUnknown.body != forKnown.body
    ensures t.users.Keys == old(t.users.Keys)
    ensures t.users[known].resetOtp == otp
    ensures forall e :: e in t.users && e != known ==> t.users[e] == old(t.users[e])
  {
    forUnknown := t.ForgotPassword(unknown, Some(otp), true, now);
    forKnown := t.ForgotPassword(known, Some(otp), true, now);
  }

  /** A failed e-mail send still leaves the code stored and usable. */
  method OtpSurvivesFailedSend(t: UserTable, email: string, otp: string, now: int)
    returns (forgot: Response, verified: Response)
    requires t.Valid() && email in t.users && IsEmail(email) && otp != ""
    modifies t
    ensures forgot == Response(StatusInternalServerError, ErrorMsg("failed to send OTP email"))
    ensures verified == Response(StatusOK, Message("OTP verified successfully"))
  {
    forgot := t.ForgotPassword(email, Some(otp), false, now);
    verified := t.VerifyOtp(VerifyOtpRequest(email, otp), now);
  }

  /**
   * Issue a code, reset with it, and replay the same request: the reset succeeds
   * with the new password and the replay is rejected, though the expiry has not passed.
   */
  method OtpIsSingleUse(t: UserTable, email: string, otp: string, newPassword: string, now: int)
    returns (reset: Response, replay: Response)
    requires t.Valid() && email in t.users && IsEmail(email)
    requires otp != "" && |newPassword| >= MinPasswordLength
    modifies t
    ensures reset == Response(StatusOK, Message("password has been reset"))
    ensures replay == Response(StatusBadRequest, ErrorMsg("invalid or expired OTP"))
    ensures email in t.users && Verify(t.users[email].passwordHash, newPassword)
    ensures t.users[email].resetOtp == "" && t.users[email].resetExpiry == now + OtpValiditySeconds
  {
    var sent := t.ForgotPassword(email, Some(otp), true, now);
    var req := ResetPasswordRequest(email, otp, newPassword, newPassword);
    reset := t.ResetPassword(req, true, now);
    replay := t.ResetPassword(req, true, now);
  }
}

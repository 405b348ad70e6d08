/**
 * The handlers of the auth and user controllers, over the users table. Each
 * handler takes the decoded request body, and in place of the service's
 * collaborators: the authenticated identity the middleware put in the request
 * context, the clock (Unix seconds), whether bcrypt hashing succeeded, the
 * generated OTP (None when generation failed) and whether the e-mail went out.
 * It returns the HTTP status with the JSON body and updates the table as the
 * handler's Create, Save and Update calls do.
 */
module Controllers {
  import opened Wrappers
  import opened Names
  import opened Passwords
  import opened Models
  import opened Token

  const StatusOK: int := 200
  const StatusCreated: int := 201
  const StatusBadRequest: int := 400
  const StatusUnauthorized: int := 401
  const StatusNotFound: int := 404
  const StatusInternalServerError: int := 500

  /** How long a reset OTP stays usable: 15 minutes. */
  const OtpValiditySeconds: int := 15 * 60

  /** The user id the auth middleware stored in the request context, if any. */
  datatype Identity = NoIdentity | UintId(id: nat) | OtherId

  /** The four fields GetProfile returns. */
  datatype Profile = Profile(id: nat, firstName: string, lastName: string, email: string)

  datatype Body =
    | NoBody              // binding failed: gin answers 400 and writes no JSON
    | BindError           // {"error": <the validator's message>}
    | ErrorMsg(error: string)
    | Message(message: string)
    | AuthSuccess(status: int, message: string, user: DetailedUserResponse, token: Jwt)
    | ProfileBody(profile: Profile)
    | UpdateSuccess(status: int, message: string, data: UpdateResponse)

  datatype Response = Response(status: int, body: Body)

  /** Login's one answer for an unknown e-mail and for a wrong password alike. */
  const InvalidCredentials: Response := Response(StatusUnauthorized, ErrorMsg("invalid credentials"))

  /** The request bodies the reset handlers declare locally. */
  datatype VerifyOtpRequest = VerifyOtpRequest(email: string, otp: string)

  datatype ResetPasswordRequest = ResetPasswordRequest(
    email: string, otp: string, newPassword: string, confirmPassword: string)

  datatype UpdateUserInput = UpdateUserInput(firstName: string, lastName: string)

  predicate ValidForgotPasswordEmail(email: string) {
    Required(email) && IsEmail(email)
  }

  predicate ValidVerifyOtpRequest(r: VerifyOtpRequest) {
    Required(r.email) && IsEmail(r.email) && Required(r.otp)
  }

  /** Includes `eqfield=NewPassword` on the confirmation. */
  predicate ValidResetPasswordRequest(r: ResetPasswordRequest) {
    Required(r.email) && IsEmail(r.email) && Required(r.otp)
    && Required(r.newPassword) && MinLength(r.newPassword, MinPasswordLength)
    && Required(r.confirmPassword) && r.confirmPassword == r.newPassword
  }

  /** The OTP check shared by VerifyOTP and ResetPassword: equal codes and the clock not after the expiry. */
  predicate OtpAccepted(u: User, otp: string, now: int) {
    u.resetOtp == otp && !(now > u.resetExpiry)
  }

  /** GetProfile's projection of a row. */
  function ProfileOf(u: User): (p: Profile)
    ensures p.id == u.id && p.email == u.email
    ensures p.firstName == u.firstName && p.lastName == u.lastName
  {
    Profile(u.id, u.firstName, u.lastName, u.email)
  }

  /** The row Register creates. */
  function NewUser(id: nat, parts: NameParts, email: string, password: string): (u: User)
    ensures u.id == id && u.email == email
    ensures u.firstName == parts.first && u.lastName == parts.last
    ensures Verify(u.passwordHash, password) && u.passwordHash != password
    ensures u.name == TrimSpace(parts.first + " " + parts.last)
    ensures u.resetOtp == "" && u.resetExpiry == ZeroTime
  {
    HashIsNotPlaintext(password);
    User(id, parts.first, parts.last, TrimSpace(parts.first + " " + parts.last), email,
         Hash(password), "", ZeroTime)
  }

  class UserTable {
    /** The users table, keyed by the unique e-mail column. */
    var users: map<string, User>
    /** The next auto-increment primary key. */
    var nextId: nat

    ghost predicate Valid()
      reads this
    {
      StoreInvariant(users, nextId)
    }

    constructor ()
      ensures Valid() && users == map[] && nextId == 1
    {
      users := map[];
      nextId := 1;
    }

    /** `First(&user, id)`: the row with primary key id, if any. */
    method FindById(id: nat) returns (found: Option<string>)
      requires Valid()
      ensures found.Some? <==> HasId(users, id)
      ensures found.Some? ==> found.value == EmailWithId(users, id)
    {
      var rest := users.Keys;
      while rest != {}
        invariant rest <= users.Keys
        invariant forall e :: e in users && e !in rest ==> users[e].id != id
        decreases rest
      {
        var e :| e in rest;
        if users[e].id == id {
          EmailWithIdIsUnique(users, nextId, id, e);
          return Some(e);
        }
        rest := rest - {e};
      }
      return None;
    }

    method Register(req: RegisterRequest, hashOk: bool, cfg: TokenConfig, now: int)
      returns (resp: Response)
      requires Valid()
      modifies this
      ensures Valid()
      ensures resp.status == StatusCreated <==>
                ValidRegisterRequest(req)
                && ResolveName(req.firstName, req.lastName, req.name).Some?
                && req.email !in old(users) && hashOk
      ensures resp.status != StatusCreated ==> users == old(users) && nextId == old(nextId)
      ensures !ValidRegisterRequest(req) ==> resp == Response(StatusBadRequest, NoBody)
      ensures ValidRegisterRequest(req) && ResolveName(req.firstName, req.lastName, req.name).None? ==>
                resp == Response(StatusBadRequest, ErrorMsg("first_name/last_name or name is required"))
      ensures ValidRegisterRequest(req) && ResolveName(req.firstName, req.lastName, req.name).Some?
              && req.email in old(users) ==>
                resp == Response(StatusBadRequest, ErrorMsg("email already in use"))
      ensures ValidRegisterRequest(req) && ResolveName(req.firstName, req.lastName, req.name).Some?
              && req.email !in old(users) && !hashOk ==>
                resp == Response(StatusInternalServerError, ErrorMsg("failed to hash password"))
      ensures resp.status == StatusCreated ==>
                var u := NewUser(old(nextId), ResolveName(req.firstName, req.lastName, req.name).value,
                                 req.email, req.password);
                && users == old(users)[req.email := u]
                && nextId == old(nextId) + 1
                && resp.body == AuthSuccess(StatusCreated, "User Registered successful",
                                            DetailedView(u), GenerateToken(cfg, 32, now))
    {
      if !ValidRegisterRequest(req) {
        return Response(StatusBadRequest, NoBody);
      }
      var parts := ResolveName(req.firstName, req.lastName, req.name);
      if parts.None? {
        return Response(StatusBadRequest, ErrorMsg("first_name/last_name or name is required"));
      }
      if req.email in users {
        return Response(StatusBadRequest, ErrorMsg("email already in use"));
      }
      if !hashOk {
        return Response(StatusInternalServerError, ErrorMsg("failed to hash password"));
      }
      var user := NewUser(nextId, parts.value, req.email, req.password);
      InsertKeepsInvariant(users, nextId, user);
      users := users[req.email := user];
      nextId := nextId + 1;
      // the token is issued for user id 32, whatever id the new row received
      var token := GenerateToken(cfg, 32, now);
      resp := Response(StatusCreated,
                       AuthSuccess(StatusCreated, "User Registered successful", DetailedView(user), token));
    }

    method Login(req: LoginRequest, cfg: TokenConfig, now: int) returns (resp: Response)
      ensures !ValidLoginRequest(req) ==> resp == Response(StatusBadRequest, NoBody)
      ensures ValidLoginRequest(req) ==>
                (resp == InvalidCredentials <==>
                   !(req.email in users && Verify(users[req.email].passwordHash, req.password)))
      ensures ValidLoginRequest(req) && req.email in users
              && Verify(users[req.email].passwordHash, req.password) ==>
                resp == Response(StatusOK,
                                 AuthSuccess(StatusOK, "Login successful", DetailedView(users[req.email]),
                                             GenerateToken(cfg, users[req.email].id, now)))
    {
      if !ValidLoginRequest(req) {
        return Response(StatusBadRequest, NoBody);
      }
      if req.email !in users {
        return InvalidCredentials;
      }
      var user := users[req.email];
      if !Verify(user.passwordHash, req.password) {
        return InvalidCredentials;
      }
      var token := GenerateToken(cfg, user.id, now);
      resp := Response(StatusOK, AuthSuccess(StatusOK, "Login successful", DetailedView(user), token));
    }

    method ChangePassword(req: ChangePasswordRequest, uid: Identity, hashOk: bool)
      returns (resp: Response)
      requires Valid()
      modifies this
      ensures Valid() && nextId == old(nextId)
      ensures resp.status != StatusOK ==> users == old(users)
      ensures !ValidChangePasswordRequest(req) ==> resp == Response(StatusBadRequest, NoBody)
      ensures ValidChangePasswordRequest(req) && uid.NoIdentity? ==>
                resp == Response(StatusUnauthorized, ErrorMsg("unauthorized"))
      ensures ValidChangePasswordRequest(req) && uid.OtherId? ==>
                resp == Response(StatusUnauthorized, ErrorMsg("invalid user id in token"))
      ensures ValidChangePasswordRequest(req) && uid.UintId? && !HasId(old(users), uid.id) ==>
                resp == Response(StatusNotFound, ErrorMsg("user not found"))
      ensures ValidChangePasswordRequest(req) && uid.UintId? && HasId(old(users), uid.id) ==>
                var e := EmailWithId(old(users), uid.id);
                var u := old(users)[e];
                if !Verify(u.passwordHash, req.currentPassword) then
                  resp == Response(StatusUnauthorized, ErrorMsg("current password is incorrect"))
                else if !hashOk then
                  resp == Response(StatusInternalServerError, ErrorMsg("failed to hash new password"))
                else
                  && resp == Response(StatusOK, Message("password updated"))
                  && users == old(users)[e := u.(passwordHash := Hash(req.newPassword))]
    {
      if !ValidChangePasswordRequest(req) {
        return Response(StatusBadRequest, NoBody);
      }
      if uid.NoIdentity? {
        return Response(StatusUnauthorized, ErrorMsg("unauthorized"));
      }
      if uid.OtherId? {
        return Response(StatusUnauthorized, ErrorMsg("invalid user id in token"));
      }
      var found := FindById(uid.id);
      if found.None? {
        return Response(StatusNotFound, ErrorMsg("user not found"));
      }
      var e := found.value;
      var user := users[e];
      if !Verify(user.passwordHash, req.currentPassword) {
        return Response(StatusUnauthorized, ErrorMsg("current password is incorrect"));
      }
      if !hashOk {
        return Response(StatusInternalServerError, ErrorMsg("failed to hash new password"));
      }
      ReplaceKeepsInvariant(users, nextId, e, user.(passwordHash := Hash(req.newPassword)));
      users := users[e := user.(passwordHash := Hash(req.newPassword))];
      resp := Response(StatusOK, Message("password updated"));
    }

    method ForgotPassword(email: string, otp: Option<string>, sent: bool, now: int)
      returns (resp: Response)
      requires Valid()
      modifies this
      ensures Valid() && nextId == old(nextId)
      ensures !ValidForgotPasswordEmail(email) ==>
                resp == Response(StatusBadRequest, BindError) && users == old(users)
      ensures ValidForgotPasswordEmail(email) && email !in old(users) ==>
                resp == Response(StatusOK, Message("record not found")) && users == old(users)
      ensures ValidForgotPasswordEmail(email) && email in old(users) && otp.None? ==>
                resp == Response(StatusInternalServerError, ErrorMsg("failed to generate OTP"))
                && users == old(users)
      ensures ValidForgotPasswordEmail(email) && email in old(users) && otp.Some? ==>
                && users == old(users)[email := old(users)[email].(resetOtp := otp.value,
                                                                  resetExpiry := now + OtpValiditySeconds)]
                && resp == if sent then Response(StatusOK, Message("OTP has been sent to your email"))
                           else Response(StatusInternalServerError, ErrorMsg("failed to send OTP email"))
    {
      if !ValidForgotPasswordEmail(email) {
        return Response(StatusBadRequest, BindError);
      }
      if email !in users {
        // the lookup error's own text is returned, with a success status
        return Response(StatusOK, Message("record not found"));
      }
      var user := users[email];
      if otp.None? {
        return Response(StatusInternalServerError, ErrorMsg("failed to generate OTP"));
      }
      user := user.(resetOtp := otp.value, resetExpiry := now + OtpValiditySeconds);
      ReplaceKeepsInvariant(users, nextId, email, user);
      users := users[email := user];
      // saved before the e-mail is attempted: a failed send leaves the OTP stored
      if !sent {
        return Response(StatusInternalServerError, ErrorMsg("failed to send OTP email"));
      }
      resp := Response(StatusOK, Message("OTP has been sent to your email"));
    }

    method VerifyOtp(req: VerifyOtpRequest, now: int) returns (resp: Response)
      ensures !ValidVerifyOtpRequest(req) ==> resp == Response(StatusBadRequest, NoBody)
      ensures ValidVerifyOtpRequest(req) && req.email !in users ==>
                resp == Response(StatusBadRequest, ErrorMsg("invalid email or OTP"))
      ensures ValidVerifyOtpRequest(req) && req.email in users ==>
                resp == if OtpAccepted(users[req.email], req.otp, now)
                        then Response(StatusOK, Message("OTP verified successfully"))
                        else Response(StatusBadRequest, ErrorMsg("invalid or expired OTP"))
      ensures resp.status == StatusOK <==>
                ValidVerifyOtpRequest(req) && req.email in users
                && OtpAccepted(users[req.email], req.otp, now)
    {
      if !ValidVerifyOtpRequest(req) {
        return Response(StatusBadRequest, NoBody);
      }
      if req.email !in users {
        return Response(StatusBadRequest, ErrorMsg("invalid email or OTP"));
      }
      var user := users[req.email];
      if !OtpAccepted(user, req.otp, now) {
        return Response(StatusBadRequest, ErrorMsg("invalid or expired OTP"));
      }
      resp := Response(StatusOK, Message("OTP verified successfully"));
    }

    method ResetPassword(req: ResetPasswordRequest, hashOk: bool, now: int) returns (resp: Response)
      requires Valid()
      modifies this
      ensures Valid() && nextId == old(nextId)
      ensures resp.status != StatusOK ==> users == old(users)
      ensures req.newPassword != req.confirmPassword ==> resp.status == StatusBadRequest
      ensures !ValidResetPasswordRequest(req) ==> resp == Response(StatusBadRequest, NoBody)
      ensures ValidResetPasswordRequest(req) && req.email !in old(users) ==>
                resp == Response(StatusBadRequest, ErrorMsg("invalid email or OTP"))
      ensures ValidResetPasswordRequest(req) && req.email in old(users)
              && !OtpAccepted(old(users)[req.email], req.otp, now) ==>
                resp == Response(StatusBadRequest, ErrorMsg("invalid or expired OTP"))
      ensures ValidResetPasswordRequest(req) && req.email in old(users)
              && OtpAccepted(old(users)[req.email], req.otp, now) ==>
                && resp == Response(StatusOK, Message("password has been reset"))
                && users == old(users)[req.email := old(users)[req.email].(
                                         passwordHash := if hashOk then Hash(req.newPassword) else "",
                                         resetOtp := "")]
    {
      if !ValidResetPasswordRequest(req) {
        return Response(StatusBadRequest, NoBody);
      }
      if req.newPassword != req.confirmPassword {
        return Response(StatusBadRequest,
                        ErrorMsg("new password and confirm password do not match"));
      }
      if req.email !in users {
        return Response(StatusBadRequest, ErrorMsg("invalid email or OTP"));
      }
      var user := users[req.email];
      if !OtpAccepted(user, req.otp, now) {
        return Response(StatusBadRequest, ErrorMsg("invalid or expired OTP"));
      }
      // a bcrypt error is ignored: the nil digest is stored as the empty string
      var newHashed := if hashOk then Hash(req.newPassword) else "";
      user := user.(passwordHash := newHashed, resetOtp := "");
      ReplaceKeepsInvariant(users, nextId, req.email, user);
      users := users[req.email := user];
      resp := Response(StatusOK, Message("password has been reset"));
    }

    method GetProfile(uid: Identity) returns (resp: Response)
      requires Valid()
      ensures uid.NoIdentity? ==> resp == Response(StatusUnauthorized, ErrorMsg("unauthorized"))
      ensures uid.OtherId? || (uid.UintId? && !HasId(users, uid.id)) ==>
                resp == Response(StatusNotFound, ErrorMsg("user not found"))
      ensures uid.UintId? ==>
                forall e :: e in users && users[e].id == uid.id ==>
                  resp == Response(StatusOK, ProfileBody(ProfileOf(users[e])))
    {
      if uid.NoIdentity? {
        return Response(StatusUnauthorized, ErrorMsg("unauthorized"));
      }
      if uid.OtherId? {
        return Response(StatusNotFound, ErrorMsg("user not found"));
      }
      var found := FindById(uid.id);
      if found.None? {
        return Response(StatusNotFound, ErrorMsg("user not found"));
      }
      forall e | e in users && users[e].id == uid.id
        ensures e == found.value
      {
        EmailWithIdIsUnique(users, nextId, uid.id, e);
      }
      resp := Response(StatusOK, ProfileBody(ProfileOf(users[found.value])));
    }

    method UpdateProfile(id: nat, input: UpdateUserInput) returns (resp: Response)
      requires Valid()
      modifies this
      ensures Valid() && nextId == old(nextId)
      ensures !HasId(old(users), id) ==>
                resp == Response(StatusNotFound, ErrorMsg("user not found")) && users == old(users)
      ensures HasId(old(users), id) ==>
                var e := EmailWithId(old(users), id);
                var u := old(users)[e];
                var first := if input.firstName != "" then input.firstName else u.firstName;
                var last := if input.lastName != "" then input.lastName else u.lastName;
                && users == old(users)[e := u.(firstName := first, lastName := last,
                                               name := first + " " + last)]
                && resp == Response(StatusOK, UpdateSuccess(StatusOK, "Profile updated successfully",
                             UpdateResponse("Profile updated successfully", first, last, false)))
    {
      var found := FindById(id);
      if found.None? {
        return Response(StatusNotFound, ErrorMsg("user not found"));
      }
      var e := found.value;
      var user := users[e];
      if input.firstName != "" {
        user := user.(firstName := input.firstName);
      }
      if input.lastName != "" {
        user := user.(lastName := input.lastName);
      }
      user := user.(name := user.firstName + " " + user.lastName);
      ReplaceKeepsInvariant(users, nextId, e, user);
      users := users[e := user];
      resp := Response(StatusOK, UpdateSuccess(StatusOK, "Profile updated successfully",
                         UpdateResponse("Profile updated successfully", user.firstName, user.lastName, false)));
    }
  }

  // ------------------------------------------------------------------ lemmas

  /** Once a reset has cleared the code, no non-empty code is accepted again. */
  lemma ClearedOtpAcceptsNothing(u: User, hash: string, otp: string, now: int)
    requires otp != ""
    ensures !OtpAccepted(u.(passwordHash := hash, resetOtp := ""), otp, now)
  {
  }

  /** A code just issued is accepted for exactly the 15 minutes that follow. */
  lemma IssuedOtpWindow(u: User, otp: string, issuedAt: int, now: int)
    ensures OtpAccepted(u.(resetOtp := otp, resetExpiry := issuedAt + OtpValiditySeconds), otp, now)
            <==> now <= issuedAt + 15 * 60
  {
  }

  /** A freshly registered user has no pending reset. */
  lemma NewUserHasNoPendingReset(id: nat, parts: NameParts, email: string, password: string,
                                 otp: string, now: int)
    requires otp != ""
    ensures !OtpAccepted(NewUser(id, parts, email, password), otp, now)
  {
  }

  /** A confirmation that differs from the new password never passes binding. */
  lemma ConfirmationMismatchIsInvalid(r: ResetPasswordRequest)
    requires r.newPassword != r.confirmPassword
    ensures !ValidResetPasswordRequest(r)
  {
  }

  /**
   * Register trims the combined name and UpdateProfile does not: with an empty
   * last name Register stores the first name alone, UpdateProfile a trailing space.
   */
  lemma RegisterTrimsUpdateDoesNot(first: string)
    requires IsWord(first)
    ensures TrimSpace(first + " " + "") == first
    ensures first + " " + "" == first + [' '] != first
  {
    var s := first + " " + "";
    assert s == first + [' '];
    TrimSpaceIsThatSlice(s, 0, |first|);
    assert s[0..|first|] == first;
  }

  /** GetProfile's answer does not depend on the password hash or the reset state. */
  lemma ProfileIgnoresSecrets(u: User, hash: string, otp: string, expiry: int)
    ensures ProfileOf(u.(passwordHash := hash, resetOtp := otp, resetExpiry := expiry)) == ProfileOf(u)
  {
  }
}

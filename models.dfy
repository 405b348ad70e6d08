/**
 * The user table's record, the request and response shapes, and the request
 * validation that gin's binding tags perform before a handler runs.
 */
module Models {
  import opened Names

  /** Go's zero time.Time (January 1, year 1, UTC) in Unix seconds. */
  const ZeroTime: int := -62135596800

  /** The minimum password length of the `min=6` binding tag. */
  const MinPasswordLength: nat := 6

  /**
   * A row of the users table. The reset OTP and its expiry are the columns the
   * forgot-password flow reads and writes; a new row has no OTP and an expiry
   * at the zero time, which every clock reading is after.
   */
  datatype User = User(
    id: nat,
    firstName: string,
    lastName: string,
    name: string,
    email: string,
    passwordHash: string,
    resetOtp: string,
    resetExpiry: int)

  datatype RegisterRequest = RegisterRequest(
    firstName: string, lastName: string, name: string, email: string, password: string)

  datatype LoginRequest = LoginRequest(email: string, password: string)

  datatype ChangePasswordRequest = ChangePasswordRequest(currentPassword: string, newPassword: string)

  /** The user object of the register and login responses; it has no password field. */
  datatype DetailedUserResponse = DetailedUserResponse(
    id: nat, email: string, username: string, firstName: string, lastName: string,
    emailVerified: bool)

  /** The data of a profile update's response. */
  datatype UpdateResponse = UpdateResponse(
    message: string, firstName: string, lastName: string, emailVerified: bool)

  // ------------------------------------------------------------ binding tags

  /** `required` on a string field: not the empty string. */
  predicate Required(s: string) {
    s != ""
  }

  /** `min=n` on a string field: at least n characters. */
  predicate MinLength(s: string, n: nat) {
    |s| >= n
  }

  /**
   * `email`: a single '@' with text on both sides and no white space. The
   * validator's full address grammar is approximated by this shape.
   */
  predicate IsEmail(s: string) {
    |s| >= 3 && multiset(s)['@'] == 1 && s[0] != '@' && s[|s| - 1] != '@'
    && forall i :: 0 <= i < |s| ==> !IsSpace(s[i])
  }

  predicate ValidRegisterRequest(r: RegisterRequest) {
    Required(r.email) && IsEmail(r.email) && Required(r.password)
    && MinLength(r.password, MinPasswordLength)
  }

  predicate ValidLoginRequest(r: LoginRequest) {
    Required(r.email) && IsEmail(r.email) && Required(r.password)
  }

  predicate ValidChangePasswordRequest(r: ChangePasswordRequest) {
    Required(r.currentPassword) && Required(r.newPassword)
    && MinLength(r.newPassword, MinPasswordLength)
  }

  /** The user object of register and login responses. */
  function DetailedView(u: User): (v: DetailedUserResponse)
    ensures v.id == u.id && v.email == u.email
    ensures v.firstName == u.firstName && v.lastName == u.lastName
    ensures v.username == "" && !v.emailVerified
  {
    DetailedUserResponse(u.id, u.email, "", u.firstName, u.lastName, false)
  }

  // ---------------------------------------------------------- the user table

  /** The rows keyed by e-mail: each key is its row's well-formed e-mail, ids are unique and below nextId. */
  ghost predicate StoreInvariant(users: map<string, User>, nextId: nat) {
    && nextId >= 1
    && (forall e :: e in users ==> users[e].email == e && IsEmail(e) && 1 <= users[e].id < nextId)
    && (forall e1, e2 :: e1 in users && e2 in users && users[e1].id == users[e2].id ==> e1 == e2)
  }

  ghost predicate HasId(users: map<string, User>, id: nat) {
    exists e :: e in users && users[e].id == id
  }

  /** The e-mail key of the row with the given id. */
  ghost function EmailWithId(users: map<string, User>, id: nat): (e: string)
    requires HasId(users, id)
    ensures e in users && users[e].id == id
  {
    var e :| e in users && users[e].id == id; e
  }

  // ------------------------------------------------------------------ lemmas

  /** An address of the form local@domain, with no '@' or white space in either part, is well formed. */
  lemma EmailFromParts(local: string, domain: string)
    requires IsWord(local) && IsWord(domain)
    requires '@' !in local && '@' !in domain
    ensures IsEmail(local + "@" + domain)
  {
    var s := local + "@" + domain;
    assert multiset(s) == multiset(local) + multiset("@") + multiset(domain);
    assert s[0] == local[0] && s[|s| - 1] == domain[|domain| - 1];
    forall i | 0 <= i < |s| ensures !IsSpace(s[i]) {
      if i < |local| {
        assert s[i] == local[i];
      } else if i > |local| {
        assert s[i] == domain[i - |local| - 1];
      }
    }
  }

  /** A register request is valid exactly when the e-mail is well formed and the password has six characters. */
  lemma ValidRegisterRequestIff(r: RegisterRequest)
    ensures ValidRegisterRequest(r) <==> IsEmail(r.email) && |r.password| >= 6
  {
  }

  /** A login request needs a well-formed e-mail and a non-empty password. */
  lemma ValidLoginRequestIff(r: LoginRequest)
    ensures ValidLoginRequest(r) <==> IsEmail(r.email) && r.password != ""
  {
  }

  /** A change-password request needs a current password and a new one of six characters. */
  lemma ValidChangePasswordRequestIff(r: ChangePasswordRequest)
    ensures ValidChangePasswordRequest(r) <==> r.currentPassword != "" && |r.newPassword| >= 6
  {
  }

  /** No two rows share an e-mail. */
  lemma EmailsAreUnique(users: map<string, User>, nextId: nat, e1: string, e2: string)
    requires StoreInvariant(users, nextId)
    requires e1 in users && e2 in users && e1 != e2
    ensures users[e1].email != users[e2].email
  {
  }

  /** Adding a row under a fresh e-mail with the next id keeps the table well formed. */
  lemma InsertKeepsInvariant(users: map<string, User>, nextId: nat, u: User)
    requires StoreInvariant(users, nextId)
    requires u.email !in users && IsEmail(u.email) && u.id == nextId
    ensures StoreInvariant(users[u.email := u], nextId + 1)
  {
    var users' := users[u.email := u];
    forall e1, e2 | e1 in users' && e2 in users' && users'[e1].id == users'[e2].id
      ensures e1 == e2
    {
      if e1 != u.email && e2 != u.email {
        assert users[e1].id == users[e2].id;
      }
    }
  }

  /** Replacing a row by one with the same id and e-mail keeps the table well formed. */
  lemma ReplaceKeepsInvariant(users: map<string, User>, nextId: nat, e: string, u: User)
    requires StoreInvariant(users, nextId)
    requires e in users && u.email == e && u.id == users[e].id
    ensures StoreInvariant(users[e := u], nextId)
  {
    var users' := users[e := u];
    forall e1, e2 | e1 in users' && e2 in users' && users'[e1].id == users'[e2].id
      ensures e1 == e2
    {
      assert users'[e1].id == users[e1].id && users'[e2].id == users[e2].id;
    }
  }

  /** The row with a given id is the only one with that id. */
  lemma EmailWithIdIsUnique(users: map<string, User>, nextId: nat, id: nat, e: string)
    requires StoreInvariant(users, nextId)
    requires e in users && users[e].id == id
    ensures HasId(users, id) && EmailWithId(users, id) == e
  {
  }

  /** The user object in a response does not depend on the password hash or the reset state. */
  lemma DetailedViewIgnoresSecrets(u: User, hash: string, otp: string, expiry: int)
    ensures DetailedView(u.(passwordHash := hash, resetOtp := otp, resetExpiry := expiry)) == DetailedView(u)
  {
  }
}

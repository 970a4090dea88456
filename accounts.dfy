/**
 * Sign-up and log-in over the users table. Password hashing is not modelled:
 * the hash of a new password is an input, and checking a password against a
 * stored hash is a caller-supplied predicate.
 */
module Accounts {
  import opened Wrappers
  import opened Models

  /** A request field given and non-empty (a missing or blank field is "not given"). */
  predicate Given(f: Option<string>) { f.Some? && f.value != "" }

  /** Emails are unique over the users table. */
  predicate EmailsUnique(users: seq<User>) {
    forall i, j :: 0 <= i < j < |users| ==> users[i].email != users[j].email
  }

  /** The position of the first user with this email. */
  function FindByEmail(users: seq<User>, email: string): (r: Option<nat>)
    ensures r.Some? ==> r.value < |users| && users[r.value].email == email
    ensures r.None? <==> forall i :: 0 <= i < |users| ==> users[i].email != email
  {
    if users == [] then None
    else if users[0].email == email then Some(0)
    else match FindByEmail(users[1..], email)
      case None => None
      case Some(i) => Some(i + 1)
  }

  datatype SignupResult = SignedUp(userId: Id) | FieldsRequired | EmailExists

  datatype LoginResult = LoggedIn(userId: Id) | CredentialsRequired | UserNotFound | InvalidPassword

  function SignupStatus(r: SignupResult): int {
    if r.SignedUp? then 201 else 400
  }

  function LoginStatus(r: LoginResult): int {
    match r
    case LoggedIn(_) => 200
    case UserNotFound => 404
    case _ => 400
  }

  /**
   * SignupView.post: all three fields are required and the email must be new; then exactly
   * one user is appended and its id (its position from 1) returned. Failures change nothing.
   */
  function Signup(users: seq<User>, name: Option<string>, email: Option<string>, password: Option<string>,
                  passwordHash: string): (r: (SignupResult, seq<User>))
    ensures r.0.SignedUp? <==> Given(name) && Given(email) && Given(password) && FindByEmail(users, email.value).None?
    ensures !r.0.SignedUp? ==> r.1 == users
    ensures r.0 == FieldsRequired <==> !(Given(name) && Given(email) && Given(password))
    ensures r.0.SignedUp? ==> r.1 == users + [User(name.value, email.value, passwordHash)] && r.0.userId == |r.1|
  {
    if !Given(name) || !Given(email) || !Given(password) then (FieldsRequired, users)
    else if FindByEmail(users, email.value).Some? then (EmailExists, users)
    else
      var users' := users + [User(name.value, email.value, passwordHash)];
      (SignedUp(|users'|), users')
  }

  /**
   * LoginView.post: missing credentials are a 400, an unknown email a 404, a password that
   * does not check against the stored hash a 400; otherwise the user's id.
   */
  function Login(users: seq<User>, email: Option<string>, password: Option<string>,
                 checkPassword: (string, string) -> bool): (r: LoginResult)
    ensures r == CredentialsRequired <==> !(Given(email) && Given(password))
    ensures r == UserNotFound <==> Given(email) && Given(password) && forall i :: 0 <= i < |users| ==> users[i].email != email.value
    ensures r.LoggedIn? ==> 1 <= r.userId <= |users| && users[r.userId - 1].email == email.value
                            && checkPassword(password.value, users[r.userId - 1].passwordHash)
    ensures r == InvalidPassword ==> exists i :: 0 <= i < |users| && users[i].email == email.value && !checkPassword(password.value, users[i].passwordHash)
  {
    if !Given(email) || !Given(password) then CredentialsRequired
    else match FindByEmail(users, email.value)
      case None => UserNotFound
      case Some(i) =>
        if checkPassword(password.value, users[i].passwordHash) then LoggedIn(i + 1) else InvalidPassword
  }

  /** SignupView.post answers 201 exactly when the user is created, and 400 otherwise. */
  lemma SignupStatusCodes(users: seq<User>, name: Option<string>, email: Option<string>, password: Option<string>,
                          passwordHash: string)
    ensures var s := SignupStatus(Signup(users, name, email, password, passwordHash).0);
      && (s == 201 <==> Given(name) && Given(email) && Given(password) && FindByEmail(users, email.value).None?)
      && (s != 201 ==> s == 400)
  {
  }

  /**
   * LoginView.post answers 200 when the password checks against the first user with the
   * email, 404 when the credentials are given and no user has the email, and 400 otherwise.
   */
  lemma LoginStatusCodes(users: seq<User>, email: Option<string>, password: Option<string>,
                         checkPassword: (string, string) -> bool)
    ensures var s := LoginStatus(Login(users, email, password, checkPassword));
      && (s == 200 <==> Given(email) && Given(password) && FindByEmail(users, email.value).Some?
                        && checkPassword(password.value, users[FindByEmail(users, email.value).value].passwordHash))
      && (s == 404 <==> Given(email) && Given(password) && forall i :: 0 <= i < |users| ==> users[i].email != email.value)
      && (s != 200 && s != 404 ==> s == 400)
  {
  }

  /** Sign-up keeps emails unique. */
  lemma SignupKeepsEmailsUnique(users: seq<User>, name: Option<string>, email: Option<string>, password: Option<string>, passwordHash: string)
    requires EmailsUnique(users)
    ensures EmailsUnique(Signup(users, name, email, password, passwordHash).1)
  {
  }

  /** With unique emails, the user found by email is the only one with it. */
  lemma {:induction false} FindByEmailUnique(users: seq<User>, email: string, k: nat)
    requires EmailsUnique(users) && k < |users| && users[k].email == email
    ensures FindByEmail(users, email) == Some(k)
  {
    if k > 0 {
      assert users[0].email != email;
      FindByEmailUnique(users[1..], email, k - 1);
    }
  }

  /**
   * Sign-up then log-in: a user who has just signed up logs in with the same email and a
   * password that checks against the stored hash, and gets the id sign-up returned.
   */
  lemma SignupThenLogin(users: seq<User>, name: string, email: string, password: string, passwordHash: string,
                        checkPassword: (string, string) -> bool)
    requires EmailsUnique(users)
    requires name != "" && email != "" && password != ""
    requires FindByEmail(users, email).None?
    requires checkPassword(password, passwordHash)
    ensures var (r, users') := Signup(users, Some(name), Some(email), Some(password), passwordHash);
      r.SignedUp? && Login(users', Some(email), Some(password), checkPassword) == LoggedIn(r.userId)
  {
    var (r, users') := Signup(users, Some(name), Some(email), Some(password), passwordHash);
    FindByEmailUnique(users', email, |users|);
  }
}

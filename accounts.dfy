/**
 The account rules: looking a user up by name, the role a new account gets,
 the decision of the login form, and the admin check.

 Password hashing belongs to a library outside this model: the digest of a
 new password is a parameter, and `check_password_hash` is the parameter
 `verify`, called with the stored digest and the typed password.
 */
module Accounts {
  import opened Wrappers
  import opened Records
  import opened Text

  /** The first user named `name` (`User.query.filter_by(username=name).first()`). */
  function FindUser(users: seq<User>, name: string): (r: Option<User>)
    ensures r.Some? ==> r.value in users && r.value.username == name
    ensures r.None? ==> forall u :: u in users ==> u.username != name
  {
    if users == [] then None
    else if users[0].username == name then Some(users[0])
    else FindUser(users[1..], name)
  }

  /** No two accounts share a user name. */
  ghost predicate UniqueUsernames(users: seq<User>) {
    forall u, v :: u in users && v in users && u.username == v.username ==> u == v
  }

  /** The role `register` gives a new account: 'admin' when the user table is empty, 'user' otherwise. */
  function NewUserRole(users: seq<User>): Role {
    if |users| == 0 then Admin else Customer
  }

  /** `is_admin()`: someone is signed in and their role is 'admin'. */
  predicate IsAdmin(current: Option<User>) {
    current.Some? && current.value.role == Admin
  }

  /** Where a signed-in user is sent: admins to the dashboard, everyone else to the shop. */
  datatype Landing = Dashboard | Shop

  function LandingFor(u: User): Landing {
    if u.role == Admin then Dashboard else Shop
  }

  /** The replies of the login form. */
  datatype LoginOutcome =
    | UnknownUser
    | PasswordMissing
    | WrongPassword
    | SignedIn(user: User, landing: Landing)

  /**
   The login form: the user name is stripped and looked up first, then an
   empty password is refused, then the digest is checked.
   */
  function Login(users: seq<User>, username: string, password: string,
                 verify: (string, string) -> bool): LoginOutcome
  {
    match FindUser(users, Strip(username))
    case None => UnknownUser
    case Some(u) =>
      if password == "" then PasswordMissing
      else if verify(u.password, password) then SignedIn(u, LandingFor(u))
      else WrongPassword
  }

  /**
   Login succeeds exactly when an account has the stripped name, the
   password is not empty and it matches that account's digest; the session
   then belongs to that account, and an admin lands on the dashboard.
   */
  lemma LoginSpec(users: seq<User>, username: string, password: string, verify: (string, string) -> bool)
    requires UniqueUsernames(users)
    ensures Login(users, username, password, verify).SignedIn? <==>
      exists u :: u in users && u.username == Strip(username) && password != "" && verify(u.password, password)
    ensures Login(users, username, password, verify) == UnknownUser <==>
      forall u :: u in users ==> u.username != Strip(username)
    ensures Login(users, username, password, verify) == PasswordMissing <==>
      (exists u :: u in users && u.username == Strip(username)) && password == ""
    ensures match Login(users, username, password, verify)
      case SignedIn(u, landing) =>
        u in users && u.username == Strip(username) && (landing == Dashboard <==> IsAdmin(Some(u)))
      case _ => true
  {
    var name := Strip(username);
    match FindUser(users, name)
    case None =>
    case Some(found) =>
      forall u | u in users && u.username == name ensures u == found { }
  }
}

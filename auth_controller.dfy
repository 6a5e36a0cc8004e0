/**
 * Sign-in and sign-up: `login` is a chain of checks over the user table
 * ending in a freshly minted token, `register` refuses a taken username or
 * email, parses the requested role and stores the new user with the
 * defaults of that role.
 */
module AuthController {
  import opened Common
  import opened Entities
  import opened Store

  const InvalidCredentials: string := "Invalid username or password"
  const AccountDisabled: string := "Account is disabled"
  const UsernameTaken: string := "Username already exists"
  const EmailTaken: string := "Email already exists"
  const RegistrationFailed: string := "Registration failed: "

  /** The approval flag a new user who is not an expert keeps: the
      entity's own default, which leaves farmers and administrators
      approved. */
  const DefaultApproval: bool := true

  datatype LoginRequest = LoginRequest(username: string, password: string)

  datatype RegisterRequest = RegisterRequest(
    username: string, email: string, password: string, firstName: string, lastName: string, role: string)

  /** The user part of both responses. */
  datatype UserView = UserView(id: nat, username: string, email: string, firstName: string, lastName: string,
                               role: string)

  datatype AuthResponse = AuthResponse(token: string, user: UserView)

  /** `UserRole.name()`. */
  function RoleName(role: Role): string
  {
    match role
    case Farmer => "FARMER"
    case Expert => "EXPERT"
    case Admin => "ADMIN"
  }

  /** `UserRole.valueOf`: the role whose name is exactly `s`; any other
      string throws. */
  function ParseRole(s: string): (r: Option<Role>)
    ensures r.Some? ==> RoleName(r.value) == s
  {
    if s == "FARMER" then Some(Farmer)
    else if s == "EXPERT" then Some(Expert)
    else if s == "ADMIN" then Some(Admin)
    else None
  }

  /** Every role name parses back to its role, so `ParseRole` accepts
      exactly the three names. */
  lemma ParseRoleName(role: Role)
    ensures ParseRole(RoleName(role)) == Some(role)
  {
  }

  function View(user: User): UserView
  {
    UserView(user.id, user.username, user.email, user.firstName, user.lastName, RoleName(user.role))
  }

  /** `login`: an unknown username and a wrong password get the same
      answer; a disabled account is reported only to a caller who knows
      its password; on success the token is minted for the user's name. */
  function Login(users: seq<User>, encoder: PasswordEncoder, tokens: TokenProvider, request: LoginRequest)
    : (r: Result<AuthResponse>)
    ensures FindUserByUsername(users, request.username).None? ==> r == Err(Rejected(InvalidCredentials))
    ensures FindUserByUsername(users, request.username).Some?
      && !encoder.matches(request.password, FindUserByUsername(users, request.username).value.password)
      ==> r == Err(Rejected(InvalidCredentials))
    ensures FindUserByUsername(users, request.username).Some?
      && encoder.matches(request.password, FindUserByUsername(users, request.username).value.password)
      && !FindUserByUsername(users, request.username).value.enabled
      ==> r == Err(Rejected(AccountDisabled))
    ensures r.Ok? <==>
      exists u :: u in users && u.username == request.username && encoder.matches(request.password, u.password)
        && u.enabled && FindUserByUsername(users, request.username) == Some(u)
    ensures r.Ok? ==>
      && r.value.token == tokens.generate(request.username)
      && exists u :: u in users && u.username == request.username && r.value.user == View(u)
  {
    var found := FindUserByUsername(users, request.username);
    if found.None? then Err(Rejected(InvalidCredentials))
    else
      var user := found.value;
      if !encoder.matches(request.password, user.password) then Err(Rejected(InvalidCredentials))
      else if !user.enabled then Err(Rejected(AccountDisabled))
      else Ok(AuthResponse(tokens.generate(user.username), View(user)))
  }

  /** The user `register` stores under `id` for a request naming `role`. */
  function Registered(id: nat, request: RegisterRequest, encoder: PasswordEncoder, role: Role): User
  {
    User(id, request.username, request.email, encoder.encode(request.password), request.firstName,
         request.lastName, role, true,
         if role == Expert then false else DefaultApproval,
         if role == Expert then Some(0) else None)
  }

  /** `register`: a taken username is refused before the email is looked
      at; an unknown role name fails; otherwise the user is appended to the
      table and a token is minted for them. */
  method Register(db: Database, encoder: PasswordEncoder, tokens: TokenProvider, request: RegisterRequest)
    returns (r: Result<AuthResponse>)
    requires db.Valid()
    modifies db`users
    ensures db.Valid()
    ensures FindUserByUsername(old(db.users), request.username).Some? ==> r == Err(Rejected(UsernameTaken))
    ensures FindUserByUsername(old(db.users), request.username).None?
      && FindUserByEmail(old(db.users), request.email).Some?
      ==> r == Err(Rejected(EmailTaken))
    ensures FindUserByUsername(old(db.users), request.username).None?
      && FindUserByEmail(old(db.users), request.email).None?
      && ParseRole(request.role).None?
      ==> r == Err(Failed(RegistrationFailed))
    ensures r.Ok? <==>
      && FindUserByUsername(old(db.users), request.username).None?
      && FindUserByEmail(old(db.users), request.email).None?
      && ParseRole(request.role).Some?
    ensures r.Err? ==> db.users == old(db.users)
    ensures r.Ok? ==>
      && db.users == old(db.users) + [Registered(|old(db.users)|, request, encoder, ParseRole(request.role).value)]
      && r.value == AuthResponse(tokens.generate(request.username), View(db.users[|old(db.users)|]))
  {
    if FindUserByUsername(db.users, request.username).Some? {
      return Err(Rejected(UsernameTaken));
    }
    if FindUserByEmail(db.users, request.email).Some? {
      return Err(Rejected(EmailTaken));
    }
    var role := ParseRole(request.role);
    if role.None? {
      // `valueOf` throws before anything is saved.
      return Err(Failed(RegistrationFailed));
    }
    var user := User(|db.users|, request.username, request.email, encoder.encode(request.password),
                     request.firstName, request.lastName, role.value, true, DefaultApproval, None);
    if user.role == Expert {
      user := user.(isApproved := false, totalAnswers := Some(0));
    }
    assert SchemaHolds(db.users + [user], db.questions, db.answers, db.listings,
                       db.nextQuestionId, db.nextAnswerId, db.nextListingId);
    db.users := db.users + [user];
    return Ok(AuthResponse(tokens.generate(user.username), View(user)));
  }

  /** A registered user is enabled and stores the encoded password; an
      expert starts unapproved with no answers. */
  lemma RegisteredDefaults(id: nat, request: RegisterRequest, encoder: PasswordEncoder, role: Role)
    ensures var u := Registered(id, request, encoder, role);
      && u.enabled && u.password == encoder.encode(request.password)
      && (role == Expert ==> !u.isApproved && u.totalAnswers == Some(0))
      && (role != Expert ==> u.isApproved == DefaultApproval)
  {
  }

  /** Looking a name up in a table with one more user finds the old match,
      or else the new user when the name is theirs. */
  lemma {:induction false} FindInAppended(users: seq<User>, user: User, username: string)
    ensures FindUserByUsername(users + [user], username) ==
      if FindUserByUsername(users, username).Some? then FindUserByUsername(users, username)
      else if user.username == username then Some(user)
      else None
    decreases |users|
  {
    if users == [] {
      assert [user][1..] == [];
    } else {
      assert (users + [user])[1..] == users[1..] + [user];
      FindInAppended(users[1..], user, username);
    }
  }

  /** Signing up and then signing in with the same name and password
      succeeds, provided the encoder recognizes its own encodings. */
  lemma LoginAfterRegister(users: seq<User>, encoder: PasswordEncoder, tokens: TokenProvider,
                           request: RegisterRequest, role: Role)
    requires FindUserByUsername(users, request.username).None?
    requires encoder.matches(request.password, encoder.encode(request.password))
    ensures var u := Registered(|users|, request, encoder, role);
      Login(users + [u], encoder, tokens, LoginRequest(request.username, request.password))
        == Ok(AuthResponse(tokens.generate(request.username), View(u)))
  {
    FindInAppended(users, Registered(|users|, request, encoder, role), request.username);
  }
}

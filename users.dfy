/** The `Users` table of the database context and the rules that
    registration and login apply to it. `BCrypt.HashPassword` and
    `BCrypt.Verify` are parameters: a hashing function and a check of a
    password against a stored hash. */
module Users {
  import opened Seqs

  /** A user row; `Role` defaults to "User". */
  datatype User = User(id: int, userName: string, email: string, passwordHash: string, role: string)

  const DefaultRole := "User"

  /** The table with its identity counter. */
  datatype UserDb = UserDb(users: seq<User>, nextUserId: int)

  datatype RegisterRequest = RegisterRequest(userName: string, email: string, password: string)
  datatype LoginRequest = LoginRequest(email: string, password: string)

  /** Conflict (409) for a taken email or user name, Created (201) with
      the new row otherwise. */
  datatype RegisterOutcome = EmailConflict | UserNameConflict | Created(user: User)

  /** Unauthorized (401), Ok (200) for the user found, or the exception
      `SingleOrDefault` throws when more than one row matches. */
  datatype LoginOutcome = Unauthorized | Authenticated(user: User) | MoreThanOne

  predicate EmailTaken(users: seq<User>, email: string) {
    exists i :: 0 <= i < |users| && users[i].email == email
  }

  predicate UserNameTaken(users: seq<User>, userName: string) {
    exists i :: 0 <= i < |users| && users[i].userName == userName
  }

  predicate UniqueEmails(users: seq<User>) {
    forall i, j :: 0 <= i < j < |users| ==> users[i].email != users[j].email
  }

  predicate UniqueUserNames(users: seq<User>) {
    forall i, j :: 0 <= i < j < |users| ==> users[i].userName != users[j].userName
  }

  function HasEmail(email: string): User -> bool {
    (u: User) => u.email == email
  }

  /** `Register`: the email check, then the user name check, then one new
      row with the hash of the password and the default role. */
  function Register(db: UserDb, req: RegisterRequest, hash: string -> string): (r: (UserDb, RegisterOutcome))
    ensures r.1 == EmailConflict <==> EmailTaken(db.users, req.email)
    ensures r.1 == UserNameConflict <==> !EmailTaken(db.users, req.email) && UserNameTaken(db.users, req.userName)
    ensures !r.1.Created? ==> r.0 == db
    ensures r.1.Created? ==> r.0.users == db.users + [r.1.user] && r.0.nextUserId == db.nextUserId + 1
    ensures r.1.Created? ==>
      r.1.user == User(db.nextUserId, req.userName, req.email, hash(req.password), DefaultRole)
  {
    if EmailTaken(db.users, req.email) then (db, EmailConflict)
    else if UserNameTaken(db.users, req.userName) then (db, UserNameConflict)
    else
      var user := User(db.nextUserId, req.userName, req.email, hash(req.password), DefaultRole);
      (UserDb(db.users + [user], db.nextUserId + 1), Created(user))
  }

  /** Registration keeps emails and user names unique. */
  lemma RegisterKeepsUnique(db: UserDb, req: RegisterRequest, hash: string -> string)
    requires UniqueEmails(db.users) && UniqueUserNames(db.users)
    ensures UniqueEmails(Register(db, req, hash).0.users)
    ensures UniqueUserNames(Register(db, req, hash).0.users)
  {
    var r := Register(db, req, hash);
    if r.1.Created? {
      var us := r.0.users;
      forall i, j | 0 <= i < j < |us| ensures us[i].email != us[j].email && us[i].userName != us[j].userName {
        if j == |db.users| {
          assert us[i] == db.users[i];
        } else {
          assert us[i] == db.users[i] && us[j] == db.users[j];
        }
      }
    }
  }

  /** `Login`: `SingleOrDefault` on the email, then the password check. */
  function Login(users: seq<User>, req: LoginRequest, verify: (string, string) -> bool): (r: LoginOutcome)
    ensures !EmailTaken(users, req.email) ==> r == Unauthorized
    ensures r.Authenticated? ==>
      r.user in users && r.user.email == req.email && verify(req.password, r.user.passwordHash)
  {
    var matches := Filter(users, HasEmail(req.email));
    FilterMembers(users, HasEmail(req.email));
    MatchesHaveEmail(users, req.email);
    if |matches| == 0 then Unauthorized
    else if |matches| > 1 then MoreThanOne
    else if verify(req.password, matches[0].passwordHash) then Authenticated(matches[0])
    else Unauthorized
  }

  /** A row found by the email lookup shows the email is taken. */
  lemma MatchesHaveEmail(users: seq<User>, email: string)
    ensures |Filter(users, HasEmail(email))| > 0 ==> EmailTaken(users, email)
  {
    var matches := Filter(users, HasEmail(email));
    FilterMembers(users, HasEmail(email));
    if |matches| > 0 {
      var i :| 0 <= i < |users| && users[i] == matches[0];
    }
  }

  /** With unique emails the lookup finds the one row with the email, and
      the outcome is decided by the password check alone. */
  lemma LoginUnique(users: seq<User>, req: LoginRequest, verify: (string, string) -> bool, k: int)
    requires UniqueEmails(users)
    requires 0 <= k < |users| && users[k].email == req.email
    ensures Login(users, req, verify) ==
      if verify(req.password, users[k].passwordHash) then Authenticated(users[k]) else Unauthorized
  {
    FilterOnly(users, k, HasEmail(req.email));
  }

  /** A user who has just registered can log in with the same password,
      provided the password check accepts a password's own hash. */
  lemma RegisterThenLogin(db: UserDb, req: RegisterRequest, hash: string -> string, verify: (string, string) -> bool)
    requires UniqueEmails(db.users) && UniqueUserNames(db.users)
    requires Register(db, req, hash).1.Created?
    requires verify(req.password, hash(req.password))
    ensures var r := Register(db, req, hash);
      Login(r.0.users, LoginRequest(req.email, req.password), verify) == Authenticated(r.1.user)
  {
    var r := Register(db, req, hash);
    RegisterKeepsUnique(db, req, hash);
    LoginUnique(r.0.users, LoginRequest(req.email, req.password), verify, |db.users|);
  }

  /** `AppDbContext.Users`. */
  class UsersTable {
    var users: seq<User>
    var nextUserId: int

    function State(): UserDb
      reads this
    {
      UserDb(users, nextUserId)
    }

    constructor(db: UserDb)
      ensures State() == db
    {
      users, nextUserId := db.users, db.nextUserId;
    }

    /** `Users.Add` followed by `SaveChangesAsync`: the row gets the next
        identity value. */
    method Add(userName: string, email: string, passwordHash: string, role: string) returns (user: User)
      modifies this
      ensures user == User(old(nextUserId), userName, email, passwordHash, role)
      ensures users == old(users) + [user] && nextUserId == old(nextUserId) + 1
    {
      user := User(nextUserId, userName, email, passwordHash, role);
      users := users + [user];
      nextUserId := nextUserId + 1;
    }
  }
}

/** `AuthController`: registration and login over the users table. The
    token and expiry in the response are not part of this model. */
module Auth {
  import opened Users

  class AuthController {
    const db: UsersTable

    constructor(db: UsersTable)
      ensures this.db == db
    {
      this.db := db;
    }

    method Register(req: RegisterRequest, hash: string -> string) returns (r: RegisterOutcome)
      modifies db
      ensures (db.State(), r) == Users.Register(old(db.State()), req, hash)
    {
      if EmailTaken(db.users, req.email) {
        return EmailConflict;
      }
      if UserNameTaken(db.users, req.userName) {
        return UserNameConflict;
      }
      var user := db.Add(req.userName, req.email, hash(req.password), DefaultRole);
      r := Created(user);
    }

    /** Login reads the table and changes nothing: it has no `modifies`. */
    method Login(req: LoginRequest, verify: (string, string) -> bool) returns (r: LoginOutcome)
      ensures r == Users.Login(db.users, req, verify)
    {
      r := Users.Login(db.users, req, verify);
    }
  }
}

/** `DbInitializer.SeedAsync`: the development admin account, added only
    when no user has its email. */
module DbInitializer {
  import opened Users

  const AdminEmail := "admin@portfolio.dev"
  const AdminUserName := "admin"
  const AdminPassword := "Admin123!"
  const AdminRole := "Admin"

  /** The table after seeding. */
  function Seeded(db: UserDb, hash: string -> string): (r: UserDb)
    ensures EmailTaken(db.users, AdminEmail) <==> r == db
    ensures |db.users| <= |r.users| <= |db.users| + 1 && r.users[..|db.users|] == db.users
    ensures |r.users| > |db.users| ==>
      r.users[|db.users|] == User(db.nextUserId, AdminUserName, AdminEmail, hash(AdminPassword), AdminRole)
    ensures EmailTaken(r.users, AdminEmail)
  {
    if EmailTaken(db.users, AdminEmail) then db
    else
      var admin := User(db.nextUserId, AdminUserName, AdminEmail, hash(AdminPassword), AdminRole);
      assert (db.users + [admin])[|db.users|] == admin;
      UserDb(db.users + [admin], db.nextUserId + 1)
  }

  /** Seeding twice is seeding once. */
  lemma SeedIdempotent(db: UserDb, hash: string -> string)
    ensures Seeded(Seeded(db, hash), hash) == Seeded(db, hash)
  {
  }

  /** Seeding keeps emails unique; user names it does not check (a
      registered "admin" with another email is kept beside the seeded one). */
  lemma SeedKeepsUniqueEmails(db: UserDb, hash: string -> string)
    requires UniqueEmails(db.users)
    ensures UniqueEmails(Seeded(db, hash).users)
  {
    var us := Seeded(db, hash).users;
    if us != db.users {
      forall i, j | 0 <= i < j < |us| ensures us[i].email != us[j].email {
        assert us[i] == db.users[i];
        if j < |db.users| {
          assert us[j] == db.users[j];
        }
      }
    }
  }

  /** The user name "admin" may be taken already: seeding then leaves two
      users with that name. */
  lemma SeedIgnoresUserNames(hash: string -> string)
    ensures var db := UserDb([User(1, AdminUserName, "someone@example.org", "h", DefaultRole)], 2);
      !UniqueUserNames(Seeded(db, hash).users)
  {
    var db := UserDb([User(1, AdminUserName, "someone@example.org", "h", DefaultRole)], 2);
    assert !EmailTaken(db.users, AdminEmail);
    var us := Seeded(db, hash).users;
    assert us[0].userName == us[1].userName;
  }

  method SeedAsync(db: UsersTable, hash: string -> string)
    modifies db
    ensures db.State() == Seeded(old(db.State()), hash)
  {
    if EmailTaken(db.users, AdminEmail) {
      return;
    }
    var _ := db.Add(AdminUserName, AdminEmail, hash(AdminPassword), AdminRole);
  }
}

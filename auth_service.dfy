/** Registration, login and user lookup. Password hashing, hash
    verification and token issuing are passed in as functions: the model
    only relies on what the callers of those functions observe. */
module AuthService {
  import opened Wrappers
  import opened Seqs
  import opened Text
  import opened Entities
  import opened Dtos
  import opened Store

  /** The user whose stored address is `email`. */
  function EmailIs(email: string): User -> bool
  {
    (u: User) => u.email == email
  }

  /** The index of the first user stored under exactly this address, if any. */
  function FindByEmail(users: seq<User>, email: string): (r: Option<nat>)
    ensures r.Some? <==> exists u :: u in users && u.email == email
    ensures r.Some? ==> r.value < |users| && users[r.value].email == email
    ensures r.Some? ==> forall i :: 0 <= i < r.value ==> users[i].email != email
  {
    FindIndex(users, EmailIs(email))
  }

  /** The user row Register stores. */
  function NewUser(newId: Id, email: string, password: string, name: string, now: Instant, hash: string -> string): (u: User)
    ensures u.id == newId && u.email == Lower(email) && u.passwordHash == hash(password)
    ensures u.name == name && u.createdAt == now
    ensures Lower(u.email) == u.email
  {
    LowerIdempotent(email);
    User(newId, Lower(email), hash(password), name, now)
  }

  lemma RegisterKeepsSchema(
    users: seq<User>, goals: seq<Goal>, months: seq<Month>,
    tasks: seq<TaskItem>, subGoals: seq<SubGoal>, activities: seq<DailyActivity>, user: User)
    requires Schema(users, goals, months, tasks, subGoals, activities)
    requires forall u :: u in users ==> u.id != user.id && u.email != user.email
    requires Lower(user.email) == user.email
    ensures Schema(users + [user], goals, months, tasks, subGoals, activities)
  {
    var users' := users + [user];
    UniqueByAppend(users, user, UserKey);
    UniqueByAppend(users, user, UserEmail);
    forall id | HasUser(users, id) ensures HasUser(users', id) {
      var u :| u in users && u.id == id;
      assert u in users';
    }
  }

  /** Adds a user under the lower-cased address unless that address is taken. */
  method Register(
    db: AppDb, email: string, password: string, name: string, newId: Id, now: Instant,
    hash: string -> string, issueToken: User -> string) returns (r: Option<AuthResponse>)
    requires db.Valid()
    requires forall u :: u in db.users ==> u.id != newId
    modifies db
    ensures db.Valid()
    ensures r.None? <==> old(exists u :: u in db.users && u.email == Lower(email))
    ensures r.None? ==> unchanged(db)
    ensures r.Some? ==>
      var user := NewUser(newId, email, password, name, now, hash);
      && db.users == old(db.users) + [user]
      && r.value == AuthResponse(issueToken(user), UserDto(newId, Lower(email), name))
    ensures db.goals == old(db.goals) && db.months == old(db.months) && db.tasks == old(db.tasks)
    ensures db.subGoals == old(db.subGoals) && db.activities == old(db.activities)
  {
    if FindByEmail(db.users, Lower(email)).Some? {
      return None;
    }
    var user := NewUser(newId, email, password, name, now, hash);
    RegisterKeepsSchema(db.users, db.goals, db.months, db.tasks, db.subGoals, db.activities, user);
    db.users := db.users + [user];
    r := Some(AuthResponse(issueToken(user), ToUserDto(user)));
  }

  /** Looks the user up by the lower-cased address and checks the password
      against the stored hash. */
  function Login(
    users: seq<User>, email: string, password: string,
    verify: (string, string) -> bool, issueToken: User -> string): (r: Option<AuthResponse>)
    ensures (forall u :: u in users ==> u.email != Lower(email)) ==> r.None?
    ensures (forall u :: u in users && u.email == Lower(email) ==> !verify(password, u.passwordHash)) ==> r.None?
    ensures r.Some? ==>
      exists u :: u in users && u.email == Lower(email) && verify(password, u.passwordHash) && r.value == AuthResponse(issueToken(u), ToUserDto(u))
  {
    match FindByEmail(users, Lower(email))
    case None => None
    case Some(k) =>
      assert users[k] in users;
      var user := users[k];
      if verify(password, user.passwordHash) then Some(AuthResponse(issueToken(user), ToUserDto(user))) else None
  }

  /** With one user per address, login succeeds exactly when that user's hash verifies. */
  lemma LoginSucceedsIff(
    users: seq<User>, email: string, password: string,
    verify: (string, string) -> bool, issueToken: User -> string)
    requires UsersOk(users)
    ensures Login(users, email, password, verify, issueToken).Some? <==>
      exists u :: u in users && u.email == Lower(email) && verify(password, u.passwordHash)
  {
    if u :| u in users && u.email == Lower(email) && verify(password, u.passwordHash) {
      var k := FindByEmail(users, Lower(email)).value;
      UniqueByMembers(users, u, users[k], UserEmail);
    }
  }

  /** A freshly registered user can log in with the same password under any
      casing of the address, and is found again by id. */
  lemma LoginAfterRegister(
    users: seq<User>, email: string, loginEmail: string, password: string, name: string,
    newId: Id, now: Instant, hash: string -> string, verify: (string, string) -> bool, issueToken: User -> string)
    requires forall u :: u in users ==> u.id != newId && u.email != Lower(email)
    requires SameIgnoringCase(email, loginEmail)
    requires verify(password, hash(password))
    ensures var user := NewUser(newId, email, password, name, now, hash);
      && Login(users + [user], loginEmail, password, verify, issueToken) == Some(AuthResponse(issueToken(user), ToUserDto(user)))
      && GetUserById(users + [user], newId) == Some(ToUserDto(user))
  {
    var user := NewUser(newId, email, password, name, now, hash);
    FindIndexAppend(users, user, EmailIs(Lower(loginEmail)));
    assert FindByEmail(users, Lower(loginEmail)).None?;
    assert (users + [user])[|users|] == user;
    FindIndexAppend(users, user, IdIs(newId));
    assert FindUserById(users, newId).None?;
  }

  /** The stored user with that id. */
  function IdIs(id: Id): User -> bool
  {
    (u: User) => u.id == id
  }

  /** The index of the user with this primary key, if any. */
  function FindUserById(users: seq<User>, id: Id): (r: Option<nat>)
    ensures r.Some? <==> HasUser(users, id)
    ensures r.Some? ==> r.value < |users| && users[r.value].id == id
  {
    FindIndex(users, IdIs(id))
  }

  /** The view of the user with that id, or null when there is none. */
  function GetUserById(users: seq<User>, id: Id): (r: Option<UserDto>)
    ensures r.None? <==> !HasUser(users, id)
    ensures r.Some? ==> exists u :: u in users && u.id == id && r.value == ToUserDto(u)
  {
    match FindUserById(users, id)
    case None => None
    case Some(k) => assert users[k] in users; Some(ToUserDto(users[k]))
  }

  /** With unique ids, every stored user is returned with its own id, email and name. */
  lemma GetUserByIdFindsStored(users: seq<User>, u: User)
    requires UsersOk(users) && u in users
    ensures GetUserById(users, u.id) == Some(UserDto(u.id, u.email, u.name))
  {
    var k := FindUserById(users, u.id).value;
    UniqueByMembers(users, u, users[k], UserKey);
  }
}

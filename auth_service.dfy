/**
 * The account directory: adding staff and marketers with a temporary password,
 * partial edits, registration (which completes a pre-created account), the role
 * reported at login, and deletion. The password encoder is a parameter.
 */
module AuthService {
  import opened Wrappers
  import opened Seqs
  import opened Http

  const DEFAULT_ADMIN_USERNAME := "sahitiT"
  const DEFAULT_STAFF_USERNAME := "ST"
  const TEMPORARY_PASSWORD := "temporaryPassword123"

  const ROLE_ADMIN := "ROLE_ADMIN"
  const ROLE_STAFF := "ROLE_STAFF"
  const ROLE_MARKETER := "ROLE_MARKETER"
  const ROLE_CUSTOMER := "ROLE_CUSTOMER"

  /** A stored account; `password` is the encoded form and `roles` the role names. */
  datatype User = User(name: string, username: string, email: string, password: string, roles: set<string>)

  function HasUsername(username: string): User -> bool
  {
    (u: User) => u.username == username
  }

  function HasEmail(email: string): User -> bool
  {
    (u: User) => u.email == email
  }

  function HasUsernameOrEmail(username: string, email: string): User -> bool
  {
    (u: User) => u.username == username || u.email == email
  }

  function NotUsername(username: string): User -> bool
  {
    (u: User) => u.username != username
  }

  /** `findByUsername`: the account with that username. */
  function FindByUsername(users: seq<User>, username: string): (r: Option<nat>)
    ensures r.Some? ==> r.value < |users| && users[r.value].username == username
    ensures r.None? <==> forall i :: 0 <= i < |users| ==> users[i].username != username
  {
    FirstWhere(users, HasUsername(username))
  }

  /** `findByUsernameOrEmail`: the (first) account matching either key. */
  function FindByUsernameOrEmail(users: seq<User>, username: string, email: string): (r: Option<nat>)
    ensures r.Some? ==> r.value < |users| && (users[r.value].username == username || users[r.value].email == email)
    ensures r.None? <==> forall i :: 0 <= i < |users| ==> users[i].username != username && users[i].email != email
  {
    FirstWhere(users, HasUsernameOrEmail(username, email))
  }

  /** `existsByUsername`. */
  function ExistsByUsername(users: seq<User>, username: string): (r: bool)
    ensures r <==> exists i :: 0 <= i < |users| && users[i].username == username
  {
    FindByUsername(users, username).Some?
  }

  /** `existsByEmail`. */
  function ExistsByEmail(users: seq<User>, email: string): (r: bool)
    ensures r <==> exists i :: 0 <= i < |users| && users[i].email == email
  {
    FirstWhere(users, HasEmail(email)).Some?
  }

  /** No two accounts share a username or an email. */
  predicate UniqueAccounts(users: seq<User>)
  {
    forall i, j :: 0 <= i < j < |users| ==> users[i].username != users[j].username && users[i].email != users[j].email
  }

  /** The user table. */
  class UserRepository {
    var users: seq<User>

    constructor ()
      ensures users == []
    {
      users := [];
    }

    /** Saving a new user adds it at the end. */
    method Insert(u: User)
      modifies this
      ensures users == old(users) + [u]
    {
      users := users + [u];
    }

    /** Saving a loaded user overwrites its row. */
    method Update(i: nat, u: User)
      requires i < |users|
      modifies this
      ensures users == old(users)[i := u]
    {
      users := users[i := u];
    }

    /** `deleteUserByUsername`: removes every row with that username. */
    method DeleteByUsername(username: string)
      modifies this
      ensures users == Filter(old(users), NotUsername(username))
    {
      users := Filter(users, NotUsername(username));
    }
  }

  // ----- adding staff and marketers -----

  /** A fresh account with both keys unused extends a directory without duplicates. */
  lemma AppendFreshKeepsUnique(users: seq<User>, u: User)
    requires UniqueAccounts(users)
    requires !ExistsByUsername(users, u.username) && !ExistsByEmail(users, u.email)
    ensures UniqueAccounts(users + [u])
  {
    var s := users + [u];
    forall i, j | 0 <= i < j < |s| ensures s[i].username != s[j].username && s[i].email != s[j].email {
      assert s[i] == users[i];
      if j < |users| {
        assert s[j] == users[j];
      }
    }
  }

  /** `addStaff` and `addMarketer`: a taken username fails first, then a taken email;
      otherwise one account is added with the encoded temporary password and `role` only. */
  method AddAccount(repo: UserRepository, encode: string -> string, name: string, username: string,
                    email: string, role: string) returns (r: Outcome<Error>)
    modifies repo
    ensures ExistsByUsername(old(repo.users), username) ==> r == Fail(UsernameTaken) && repo.users == old(repo.users)
    ensures !ExistsByUsername(old(repo.users), username) && ExistsByEmail(old(repo.users), email) ==>
              r == Fail(EmailTaken) && repo.users == old(repo.users)
    ensures !ExistsByUsername(old(repo.users), username) && !ExistsByEmail(old(repo.users), email) ==>
              r == Pass && repo.users == old(repo.users) + [User(name, username, email, encode(TEMPORARY_PASSWORD), {role})]
    ensures UniqueAccounts(old(repo.users)) ==> UniqueAccounts(repo.users)
  {
    if ExistsByUsername(repo.users, username) {
      return Fail(UsernameTaken);
    }
    if ExistsByEmail(repo.users, email) {
      return Fail(EmailTaken);
    }
    var u := User(name, username, email, encode(TEMPORARY_PASSWORD), {role});
    if UniqueAccounts(repo.users) {
      AppendFreshKeepsUnique(repo.users, u);
    }
    repo.Insert(u);
    return Pass;
  }

  /** `addStaff`: `AddAccount` with the staff role. */
  method AddStaff(repo: UserRepository, encode: string -> string, name: string, username: string, email: string)
    returns (r: Outcome<Error>)
    modifies repo
    ensures ExistsByUsername(old(repo.users), username) ==> r == Fail(UsernameTaken) && repo.users == old(repo.users)
    ensures !ExistsByUsername(old(repo.users), username) && ExistsByEmail(old(repo.users), email) ==>
              r == Fail(EmailTaken) && repo.users == old(repo.users)
    ensures !ExistsByUsername(old(repo.users), username) && !ExistsByEmail(old(repo.users), email) ==>
              r == Pass && repo.users == old(repo.users) + [User(name, username, email, encode(TEMPORARY_PASSWORD), {ROLE_STAFF})]
    ensures UniqueAccounts(old(repo.users)) ==> UniqueAccounts(repo.users)
  {
    r := AddAccount(repo, encode, name, username, email, ROLE_STAFF);
  }

  /** `addMarketer`: `AddAccount` with the marketer role. */
  method AddMarketer(repo: UserRepository, encode: string -> string, name: string, username: string, email: string)
    returns (r: Outcome<Error>)
    modifies repo
    ensures ExistsByUsername(old(repo.users), username) ==> r == Fail(UsernameTaken) && repo.users == old(repo.users)
    ensures !ExistsByUsername(old(repo.users), username) && ExistsByEmail(old(repo.users), email) ==>
              r == Fail(EmailTaken) && repo.users == old(repo.users)
    ensures !ExistsByUsername(old(repo.users), username) && !ExistsByEmail(old(repo.users), email) ==>
              r == Pass && repo.users == old(repo.users) + [User(name, username, email, encode(TEMPORARY_PASSWORD), {ROLE_MARKETER})]
    ensures UniqueAccounts(old(repo.users)) ==> UniqueAccounts(repo.users)
  {
    r := AddAccount(repo, encode, name, username, email, ROLE_MARKETER);
  }

  // ----- editing -----

  /** A supplied value: present (not null) and not empty. */
  predicate Supplied(v: Option<string>)
  {
    v.Some? && v.value != ""
  }

  /** Whether `editUser` changes the username: supplied and different from the current one. */
  predicate ChangesUsername(existing: string, newUsername: Option<string>)
  {
    Supplied(newUsername) && newUsername.value != existing
  }

  /** Whether `editUser` changes the email: supplied and different from the current one. */
  predicate ChangesEmail(u: User, newEmail: Option<string>)
  {
    Supplied(newEmail) && newEmail.value != u.email
  }

  /** The error `editUser` raises for account `u` (found under `existing`), if any: a new
      username already in use, checked before a new email already in use. */
  function EditError(users: seq<User>, u: User, existing: string, newUsername: Option<string>,
                     newEmail: Option<string>): (r: Option<Error>)
    ensures r == Some(UsernameTaken) <==> ChangesUsername(existing, newUsername) && ExistsByUsername(users, newUsername.value)
    ensures r == Some(EmailTaken) <==>
              !(ChangesUsername(existing, newUsername) && ExistsByUsername(users, newUsername.value)) &&
              ChangesEmail(u, newEmail) && ExistsByEmail(users, newEmail.value)
    ensures r.Some? ==> r == Some(UsernameTaken) || r == Some(EmailTaken)
  {
    if ChangesUsername(existing, newUsername) && ExistsByUsername(users, newUsername.value) then Some(UsernameTaken)
    else if ChangesEmail(u, newEmail) && ExistsByEmail(users, newEmail.value) then Some(EmailTaken)
    else None
  }

  /** The account after a successful `editUser`: each field is replaced only when a
      value is supplied (and, for the username and email, differs), the roles never. */
  function Edited(u: User, existing: string, newUsername: Option<string>, newName: Option<string>,
                  newEmail: Option<string>, newPassword: Option<string>, encode: string -> string): (r: User)
    ensures r.roles == u.roles
    ensures r.username == (if ChangesUsername(existing, newUsername) then newUsername.value else u.username)
    ensures r.email == (if ChangesEmail(u, newEmail) then newEmail.value else u.email)
    ensures r.name == (if Supplied(newName) then newName.value else u.name)
    ensures r.password == (if Supplied(newPassword) then encode(newPassword.value) else u.password)
  {
    var u1 := if ChangesUsername(existing, newUsername) then u.(username := newUsername.value) else u;
    var u2 := if ChangesEmail(u1, newEmail) then u1.(email := newEmail.value) else u1;
    var u3 := if Supplied(newName) then u2.(name := newName.value) else u2;
    if Supplied(newPassword) then u3.(password := encode(newPassword.value)) else u3
  }

  /** An edit with nothing supplied leaves the account as it was. */
  lemma EditNothingIsIdentity(u: User, existing: string, encode: string -> string)
    ensures Edited(u, existing, None, None, None, None, encode) == u
  {
  }

  /** An edit that passes the checks keeps the directory free of duplicates. */
  lemma EditKeepsUnique(users: seq<User>, i: nat, newUsername: Option<string>, newName: Option<string>,
                        newEmail: Option<string>, newPassword: Option<string>, encode: string -> string)
    requires UniqueAccounts(users) && i < |users|
    requires EditError(users, users[i], users[i].username, newUsername, newEmail).None?
    ensures UniqueAccounts(users[i := Edited(users[i], users[i].username, newUsername, newName, newEmail, newPassword, encode)])
  {
    var e := Edited(users[i], users[i].username, newUsername, newName, newEmail, newPassword, encode);
    var s := users[i := e];
    forall a, b | 0 <= a < b < |s| ensures s[a].username != s[b].username && s[a].email != s[b].email {
      if a == i {
        assert s[b] == users[b];
        assert s[a].username == users[a].username || !ExistsByUsername(users, e.username);
        assert s[a].email == users[a].email || !ExistsByEmail(users, e.email);
      } else if b == i {
        assert s[a] == users[a];
        assert s[b].username == users[b].username || !ExistsByUsername(users, e.username);
        assert s[b].email == users[b].email || !ExistsByEmail(users, e.email);
      } else {
        assert s[a] == users[a] && s[b] == users[b];
      }
    }
  }

  /** `editUser`: an unknown username is not found; a taken new username, then a taken new
      email, is an error; in each of these cases nothing is saved. Otherwise the account
      is saved with the supplied fields replaced. */
  method EditUser(repo: UserRepository, encode: string -> string, existing: string, newUsername: Option<string>,
                  newName: Option<string>, newEmail: Option<string>, newPassword: Option<string>)
    returns (r: Outcome<Error>)
    modifies repo
    ensures FindByUsername(old(repo.users), existing).None? ==> r == Fail(NotFound) && repo.users == old(repo.users)
    ensures FindByUsername(old(repo.users), existing).Some? ==>
              var i := FindByUsername(old(repo.users), existing).value;
              var u := old(repo.users)[i];
              var e := EditError(old(repo.users), u, existing, newUsername, newEmail);
              (e.Some? ==> r == Fail(e.value) && repo.users == old(repo.users)) &&
              (e.None? ==>
                 r == Pass &&
                 repo.users == old(repo.users)[i := Edited(u, existing, newUsername, newName, newEmail, newPassword, encode)])
    ensures UniqueAccounts(old(repo.users)) ==> UniqueAccounts(repo.users)
  {
    var found := FindByUsername(repo.users, existing);
    if found.None? {
      return Fail(NotFound);
    }
    var i := found.value;
    var user := repo.users[i];
    var original := user;
    if newUsername.Some? && newUsername.value != "" && newUsername.value != existing {
      if ExistsByUsername(repo.users, newUsername.value) {
        return Fail(UsernameTaken);
      }
      user := user.(username := newUsername.value);
    }
    if newEmail.Some? && newEmail.value != "" {
      if newEmail.value != user.email {
        if ExistsByEmail(repo.users, newEmail.value) {
          return Fail(EmailTaken);
        }
        user := user.(email := newEmail.value);
      }
    }
    if newName.Some? && newName.value != "" {
      user := user.(name := newName.value);
    }
    if newPassword.Some? && newPassword.value != "" {
      user := user.(password := encode(newPassword.value));
    }
    assert user == Edited(original, existing, newUsername, newName, newEmail, newPassword, encode);
    if UniqueAccounts(repo.users) {
      EditKeepsUnique(repo.users, i, newUsername, newName, newEmail, newPassword, encode);
    }
    repo.Update(i, user);
    return Pass;
  }

  // ----- registration -----

  /** When no account matches the username or the email, neither is taken: the duplicate
      checks `register` runs after that lookup can never fail. */
  lemma RegisterChecksCannotFail(users: seq<User>, username: string, email: string)
    requires FindByUsernameOrEmail(users, username, email).None?
    ensures !ExistsByUsername(users, username) && !ExistsByEmail(users, email)
  {
  }

  /** `register`: an account matching the username or the email gets the new name and
      encoded password (nothing else, no new account); otherwise a customer account is
      added. */
  method Register(repo: UserRepository, encode: string -> string, name: string, username: string,
                  email: string, password: string)
    modifies repo
    ensures FindByUsernameOrEmail(old(repo.users), username, email).Some? ==>
              var i := FindByUsernameOrEmail(old(repo.users), username, email).value;
              repo.users == old(repo.users)[i := old(repo.users)[i].(name := name, password := encode(password))]
    ensures FindByUsernameOrEmail(old(repo.users), username, email).None? ==>
              repo.users == old(repo.users) + [User(name, username, email, encode(password), {ROLE_CUSTOMER})]
    ensures UniqueAccounts(old(repo.users)) ==> UniqueAccounts(repo.users)
  {
    var found := FindByUsernameOrEmail(repo.users, username, email);
    if found.Some? {
      var i := found.value;
      var user := repo.users[i].(name := name, password := encode(password));
      ghost var before := repo.users;
      repo.Update(i, user);
      assert forall j :: 0 <= j < |before| ==>
        repo.users[j].username == before[j].username && repo.users[j].email == before[j].email;
      return;
    }
    RegisterChecksCannotFail(repo.users, username, email);
    var user := User(name, username, email, encode(password), {ROLE_CUSTOMER});
    if UniqueAccounts(repo.users) {
      AppendFreshKeepsUnique(repo.users, user);
    }
    repo.Insert(user);
  }

  // ----- login -----

  /** The role `login` reports once the credentials are accepted: the default admin and
      staff usernames get their role, which replaces all their roles; any other account
      reports one of its roles, or the customer role if it has none; a key matching no
      account reports the customer role. */
  method Login(repo: UserRepository, usernameOrEmail: string) returns (role: string)
    modifies repo
    ensures FindByUsernameOrEmail(old(repo.users), usernameOrEmail, usernameOrEmail).None? ==>
              role == ROLE_CUSTOMER && repo.users == old(repo.users)
    ensures FindByUsernameOrEmail(old(repo.users), usernameOrEmail, usernameOrEmail).Some? ==>
              var i := FindByUsernameOrEmail(old(repo.users), usernameOrEmail, usernameOrEmail).value;
              var u := old(repo.users)[i];
              if u.username == DEFAULT_ADMIN_USERNAME then
                role == ROLE_ADMIN && repo.users == old(repo.users)[i := u.(roles := {ROLE_ADMIN})]
              else if u.username == DEFAULT_STAFF_USERNAME then
                role == ROLE_STAFF && repo.users == old(repo.users)[i := u.(roles := {ROLE_STAFF})]
              else
                repo.users == old(repo.users) &&
                (if u.roles == {} then role == ROLE_CUSTOMER else role in u.roles)
    ensures UniqueAccounts(old(repo.users)) ==> UniqueAccounts(repo.users)
  {
    var found := FindByUsernameOrEmail(repo.users, usernameOrEmail, usernameOrEmail);
    role := ROLE_CUSTOMER;
    if found.Some? {
      var i := found.value;
      var user := repo.users[i];
      ghost var before := repo.users;
      if user.username == DEFAULT_ADMIN_USERNAME {
        role := ROLE_ADMIN;
        repo.Update(i, user.(roles := {ROLE_ADMIN}));
      } else if user.username == DEFAULT_STAFF_USERNAME {
        role := ROLE_STAFF;
        repo.Update(i, user.(roles := {ROLE_STAFF}));
      } else if user.roles != {} {
        role :| role in user.roles;
      }
      assert forall j :: 0 <= j < |before| ==>
        repo.users[j].username == before[j].username && repo.users[j].email == before[j].email;
    }
  }

  // ----- deletion -----

  /** In a directory without duplicates, deleting by a user's username removes exactly
      that account and keeps every other in place. */
  lemma DeleteRemovesOnlyThatUser(users: seq<User>, i: nat)
    requires UniqueAccounts(users) && i < |users|
    ensures Filter(users, NotUsername(users[i].username)) == users[..i] + users[i + 1..]
  {
    var p := NotUsername(users[i].username);
    forall j | 0 <= j < |users| && j != i ensures p(users[j]) {
      if j < i {
        assert users[j].username != users[i].username;
      } else {
        assert users[i].username != users[j].username;
      }
    }
    FilterRejectsOnlyOne(users, i, p);
  }

  /** Removing one account keeps a directory free of duplicates. */
  lemma RemovalKeepsUnique(users: seq<User>, i: nat)
    requires UniqueAccounts(users) && i < |users|
    ensures UniqueAccounts(users[..i] + users[i + 1..])
  {
    var s := users[..i] + users[i + 1..];
    forall a, b | 0 <= a < b < |s| ensures s[a].username != s[b].username && s[a].email != s[b].email {
      var a' := if a < i then a else a + 1;
      var b' := if b < i then b else b + 1;
      assert s[a] == users[a'] && s[b] == users[b'];
    }
  }

  /** `deleteUserByUsername`: an unknown username is not found and nothing changes;
      otherwise the account is removed and, without duplicates, only that one. */
  method DeleteUserByUsername(repo: UserRepository, username: string) returns (r: Outcome<Error>)
    modifies repo
    ensures FindByUsername(old(repo.users), username).None? ==> r == Fail(NotFound) && repo.users == old(repo.users)
    ensures FindByUsername(old(repo.users), username).Some? ==>
              r == Pass && repo.users == Filter(old(repo.users), NotUsername(username))
    ensures FindByUsername(old(repo.users), username).Some? && UniqueAccounts(old(repo.users)) ==>
              var i := FindByUsername(old(repo.users), username).value;
              repo.users == old(repo.users)[..i] + old(repo.users)[i + 1..]
    ensures UniqueAccounts(old(repo.users)) ==> UniqueAccounts(repo.users)
  {
    var found := FindByUsername(repo.users, username);
    if found.None? {
      return Fail(NotFound);
    }
    var i := found.value;
    var user := repo.users[i].(roles := {});
    FilterReplaceRejected(repo.users, i, user, NotUsername(username));
    if UniqueAccounts(repo.users) {
      DeleteRemovesOnlyThatUser(repo.users, i);
      RemovalKeepsUnique(repo.users, i);
    }
    repo.Update(i, user);
    repo.DeleteByUsername(username);
    return Pass;
  }
}

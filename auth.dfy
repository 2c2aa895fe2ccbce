/** Account registration and login over the user table.

    E-mail validity, password hashing and password checking are library
    calls; they are given as the inputs `validEmail`, `hash` and
    `checkPassword`. */
module Auth {
  import opened Common

  /** One row of the user table; `password` holds the stored hash. */
  datatype User = User(id: nat, username: string, email: string, password: string)

  /** Why a registration is refused, one case per guard, in guard order. */
  datatype RegisterError =
    | PasswordTooShort
    | UsernameTooShort
    | EmailInvalid
    | EmailTaken
    | UsernameTaken

  const MinPasswordLength: nat := 6
  const MinUsernameLength: nat := 3

  /** The status each refusal is answered with. */
  function StatusOf(e: RegisterError): (s: Status)
    ensures s == BadRequest400 <==> e.PasswordTooShort? || e.UsernameTooShort? || e.EmailInvalid?
    ensures s == Conflict409 <==> e.EmailTaken? || e.UsernameTaken?
  {
    match e
    case PasswordTooShort => BadRequest400
    case UsernameTooShort => BadRequest400
    case EmailInvalid => BadRequest400
    case EmailTaken => Conflict409
    case UsernameTaken => Conflict409
  }

  predicate EmailInUse(users: seq<User>, email: string) {
    exists i :: 0 <= i < |users| && users[i].email == email
  }

  predicate UsernameInUse(users: seq<User>, username: string) {
    exists i :: 0 <= i < |users| && users[i].username == username
  }

  /** The guard chain of registration: the first guard that fails decides
      the refusal, and None means every guard passed. */
  function RegisterCheck(users: seq<User>, username: string, email: string, password: string,
                         validEmail: string -> bool): (r: Option<RegisterError>)
    ensures r == Some(PasswordTooShort) <==> |password| < MinPasswordLength
    ensures r == Some(UsernameTooShort) <==>
      |password| >= MinPasswordLength && |username| < MinUsernameLength
    ensures r == Some(EmailInvalid) <==>
      |password| >= MinPasswordLength && |username| >= MinUsernameLength && !validEmail(email)
    ensures r == Some(EmailTaken) <==>
      |password| >= MinPasswordLength && |username| >= MinUsernameLength && validEmail(email) &&
      EmailInUse(users, email)
    ensures r == Some(UsernameTaken) <==>
      |password| >= MinPasswordLength && |username| >= MinUsernameLength && validEmail(email) &&
      !EmailInUse(users, email) && UsernameInUse(users, username)
    ensures r == None <==>
      |password| >= MinPasswordLength && |username| >= MinUsernameLength && validEmail(email) &&
      !EmailInUse(users, email) && !UsernameInUse(users, username)
  {
    if |password| < MinPasswordLength then Some(PasswordTooShort)
    else if |username| < MinUsernameLength then Some(UsernameTooShort)
    else if !validEmail(email) then Some(EmailInvalid)
    else if FirstWhere(users, (u: User) => u.email == email).Some? then Some(EmailTaken)
    else if FirstWhere(users, (u: User) => u.username == username).Some? then Some(UsernameTaken)
    else None
  }

  /** Ids lie in [1, bound) and increase along the table; e-mails and user
      names are each unique, as the columns' uniqueness constraints demand. */
  ghost predicate UsersWellFormed(users: seq<User>, bound: nat) {
    (forall i :: 0 <= i < |users| ==> 1 <= users[i].id < bound) &&
    (forall i, j :: 0 <= i < j < |users| ==>
      users[i].id < users[j].id && users[i].email != users[j].email && users[i].username != users[j].username)
  }

  class UserTable {
    var rows: seq<User>
    var nextId: nat

    ghost predicate Valid()
      reads this
    {
      1 <= nextId && UsersWellFormed(rows, nextId)
    }

    constructor ()
      ensures Valid() && rows == [] && nextId == 1
    {
      rows := [];
      nextId := 1;
    }

    /** `save()`: the store assigns the next id and appends the row; the
        unique e-mail and user-name columns refuse a duplicate. */
    method Save(u: User) returns (saved: User)
      requires Valid()
      requires !EmailInUse(rows, u.email) && !UsernameInUse(rows, u.username)
      modifies this
      ensures Valid()
      ensures saved == u.(id := old(nextId))
      ensures rows == old(rows) + [saved] && nextId == old(nextId) + 1
    {
      saved := u.(id := nextId);
      rows := rows + [saved];
      nextId := nextId + 1;
    }

    /** Registration: the guard chain, then one insert of a user whose
        stored password is the hash of the one given. */
    method Register(username: string, email: string, password: string,
                    validEmail: string -> bool, hash: string -> string)
      returns (status: Status, refused: Option<RegisterError>)
      requires Valid()
      modifies this
      ensures Valid()
      ensures refused == RegisterCheck(old(rows), username, email, password, validEmail)
      ensures refused.Some? ==> status == StatusOf(refused.value) && unchanged(this)
      ensures refused.None? ==>
        status == Created201 &&
        rows == old(rows) + [User(old(nextId), username, email, hash(password))] &&
        nextId == old(nextId) + 1
    {
      refused := RegisterCheck(rows, username, email, password, validEmail);
      if refused.Some? {
        return StatusOf(refused.value), refused;
      }
      var _ := Save(User(0, username, email, hash(password)));
      status := Created201;
    }

    /** Login: the user with that e-mail, if there is one and the password
        check accepts the given password against the stored hash. */
    method Login(email: string, password: string, checkPassword: (string, string) -> bool)
      returns (status: Status, user: Option<User>)
      requires Valid()
      ensures status == Ok200 || status == Unauthorized401
      ensures status == Ok200 <==>
        exists i :: 0 <= i < |rows| && rows[i].email == email && checkPassword(rows[i].password, password)
      ensures user.Some? <==> status == Ok200
      ensures user.Some? ==> user.value in rows && user.value.email == email
    {
      var found := FirstWhere(rows, (u: User) => u.email == email);
      if found.Some? && checkPassword(rows[found.value].password, password) {
        status, user := Ok200, Some(rows[found.value]);
      } else {
        status, user := Unauthorized401, None;
      }
    }
  }
}

/** Users (`user-actions.ts`): administrators, teachers and students, unique
    by email (a constraint the database enforces), with a hashed password. */
module Users {
  import opened Common

  datatype Role = Admin | Teacher | Student

  /** The data submitted to `createUser` / `updateUser`; an absent optional
      field is `None`. */
  datatype UserInput = UserInput(
    name: string,
    email: string,
    password: Option<string>,
    role: Role,
    departmentId: Option<string>,
    batchId: Option<string>,
    sectionId: Option<string>,
    rollNumber: Option<string>)

  /** A row of the user table; `createdAt` is the database's creation time. */
  datatype User = User(
    name: string,
    email: string,
    passwordHash: string,
    role: Role,
    departmentId: Option<string>,
    batchId: Option<string>,
    sectionId: Option<string>,
    rollNumber: Option<string>,
    createdAt: int)

  /** `UserSchema`: a name, an email address (the validator's own test, `isEmail`),
      and, when a password is present, one of at least six characters. */
  predicate ValidUser(input: UserInput, isEmail: string -> bool) {
    && input.name != []
    && isEmail(input.email)
    && (input.password.Some? ==> |input.password.value| >= 6)
  }

  /** `value || null`: an absent or empty string is stored as null. */
  function OrNull(v: Option<string>): (r: Option<string>)
    ensures r.None? <==> v.None? || v.value == []
    ensures r.Some? ==> r == v
  {
    if v.Some? && v.value != [] then v else None
  }

  /** `if (password)`: a password that is present and non-empty. */
  predicate HasPassword(input: UserInput) {
    input.password.Some? && input.password.value != []
  }

  /** A password that passed the schema is never present-but-empty, so the
      "password required" check of `createUser` fires exactly when none was sent. */
  lemma ValidPasswordIsPresentOrAbsent(input: UserInput, isEmail: string -> bool)
    requires ValidUser(input, isEmail)
    ensures HasPassword(input) <==> input.password.Some?
  {
  }

  /** The row `createUser` writes. */
  function NewUser(input: UserInput, hash: string -> string, now: int): User
    requires HasPassword(input)
  {
    User(input.name, input.email, hash(input.password.value), input.role,
         OrNull(input.departmentId), OrNull(input.batchId),
         OrNull(input.sectionId), OrNull(input.rollNumber), now)
  }

  /** The row `updateUser` leaves: every submitted field replaced, optional ones
      nulled when empty, the hash replaced only when a password was sent, and
      the creation time kept. */
  function UpdatedUser(old_: User, input: UserInput, hash: string -> string): User {
    User(input.name, input.email,
         if HasPassword(input) then hash(input.password.value) else old_.passwordHash,
         input.role,
         OrNull(input.departmentId), OrNull(input.batchId),
         OrNull(input.sectionId), OrNull(input.rollNumber), old_.createdAt)
  }

  /** Without a password an update keeps the stored hash; with one it stores its hash. */
  lemma UpdateKeepsHashWithoutPassword(u: User, input: UserInput, hash: string -> string)
    ensures !HasPassword(input) ==> UpdatedUser(u, input, hash).passwordHash == u.passwordHash
    ensures HasPassword(input) ==> UpdatedUser(u, input, hash).passwordHash == hash(input.password.value)
    ensures UpdatedUser(u, input, hash).createdAt == u.createdAt
    ensures input.departmentId == Some("") ==> UpdatedUser(u, input, hash).departmentId.None?
  {
  }

  function EmailOf(u: User): string {
    u.email
  }

  /** The `where` of `getUsers`: the role when one is given, and a case-insensitive
      substring of the name or the email when a non-empty query is given. */
  function UserFilter(role: Option<Role>, query: string): User -> bool {
    (u: User) =>
      && (role.Some? ==> u.role == role.value)
      && (query != [] ==> ContainsIgnoringCase(u.name, query) || ContainsIgnoringCase(u.email, query))
  }

  function CreatedAtOf(x: (string, User)): int {
    x.1.createdAt
  }

  const EmailTaken := "Email already exists"

  class UserTable {
    var rows: map<string, User>

    /** The database's unique constraint on email. */
    ghost predicate Valid()
      reads this
    {
      Unique(rows, EmailOf)
    }

    constructor ()
      ensures Valid() && rows == map[]
    {
      rows := map[];
    }

    /** `createUser`. `isEmail` is the validator's email test, `hash` stands
        for bcrypt, `newId` and `now` for the id and time the database assigns.
        A taken email is the unique-constraint error, reported as such. */
    method CreateUser(input: UserInput, isEmail: string -> bool, hash: string -> string,
                      newId: string, now: int) returns (r: Outcome)
      requires Valid() && newId !in rows
      modifies this
      ensures Valid()
      ensures !ValidUser(input, isEmail) ==> r == Failure(ValidationError)
      ensures ValidUser(input, isEmail) && input.password.None? ==>
                r == Failure(Message("Password is required for new users"))
      ensures ValidUser(input, isEmail) && HasPassword(input) &&
              Taken(old(rows), EmailOf, input.email, None) ==>
                r == Failure(Message(EmailTaken))
      ensures r == Success <==>
                ValidUser(input, isEmail) && HasPassword(input) &&
                !Taken(old(rows), EmailOf, input.email, None)
      ensures r == Success ==> rows == old(rows)[newId := NewUser(input, hash, now)]
      ensures r != Success ==> rows == old(rows)
    {
      if !ValidUser(input, isEmail) {
        return Failure(ValidationError);
      }
      if !HasPassword(input) {
        return Failure(Message("Password is required for new users"));
      }
      var u := NewUser(input, hash, now);
      if Taken(rows, EmailOf, u.email, None) {
        return Failure(Message(EmailTaken));
      }
      PutKeepsUnique(rows, EmailOf, newId, u);
      rows := rows[newId := u];
      r := Success;
    }

    /** `updateUser`: an unknown id fails the update; an email held by another
        user is the unique-constraint error. */
    method UpdateUser(id: string, input: UserInput, isEmail: string -> bool,
                      hash: string -> string) returns (r: Outcome)
      requires Valid()
      modifies this
      ensures Valid()
      ensures !ValidUser(input, isEmail) ==> r == Failure(ValidationError)
      ensures ValidUser(input, isEmail) && id !in old(rows) ==>
                r == Failure(Message("Failed to update user"))
      ensures ValidUser(input, isEmail) && id in old(rows) &&
              Taken(old(rows), EmailOf, input.email, Some(id)) ==>
                r == Failure(Message(EmailTaken))
      ensures r == Success <==>
                ValidUser(input, isEmail) && id in old(rows) &&
                !Taken(old(rows), EmailOf, input.email, Some(id))
      ensures r == Success ==> rows == old(rows)[id := UpdatedUser(old(rows)[id], input, hash)]
      ensures r != Success ==> rows == old(rows)
    {
      if !ValidUser(input, isEmail) {
        return Failure(ValidationError);
      }
      if id !in rows {
        return Failure(Message("Failed to update user"));
      }
      var u := rows[id].(name := input.name, email := input.email, role := input.role,
                         departmentId := OrNull(input.departmentId), batchId := OrNull(input.batchId),
                         sectionId := OrNull(input.sectionId), rollNumber := OrNull(input.rollNumber));
      if HasPassword(input) {
        u := u.(passwordHash := hash(input.password.value));
      }
      if Taken(rows, EmailOf, u.email, Some(id)) {
        return Failure(Message(EmailTaken));
      }
      PutKeepsUnique(rows, EmailOf, id, u);
      rows := rows[id := u];
      r := Success;
    }

    /** `deleteUser`: removes that user only. `blocked` stands for the database
        refusing the delete. */
    method DeleteUser(id: string, blocked: bool) returns (r: Outcome)
      requires Valid()
      modifies this
      ensures Valid()
      ensures r == Success <==> id in old(rows) && !blocked
      ensures r == Success ==> rows == old(rows) - {id}
      ensures r != Success ==> r == Failure(Message("Failed to delete user")) && rows == old(rows)
    {
      if id !in rows || blocked {
        return Failure(Message("Failed to delete user"));
      }
      RemoveKeepsUnique(rows, EmailOf, id);
      rows := rows - {id};
      r := Success;
    }

    /** `getUsers`: the users that pass the filter, each once, newest first. */
    ghost function Users(role: Option<Role>, query: string): (r: seq<(string, User)>)
      reads this
      ensures forall x :: multiset(r)[x] ==
                if x.0 in rows && rows[x.0] == x.1 && UserFilter(role, query)(x.1) then 1 else 0
      ensures SortedBy(r, ByNumberDesc(CreatedAtOf))
    {
      ByNumberDescIsPreorder(CreatedAtOf);
      Listing(rows, UserFilter(role, query), ByNumberDesc(CreatedAtOf))
    }
  }

  /** With no role and an empty query, `getUsers` filters nothing out; a query
      matches regardless of letter case. */
  lemma UserFilterDefaults(u: User, q: string)
    ensures UserFilter(None, "")(u)
    ensures ContainsIgnoringCase(u.name, q) ==> UserFilter(None, q)(u)
    ensures UserFilter(None, q)(u) == UserFilter(None, Upper(q))(u)
  {
    LowerOfUpper(q);
  }

  lemma LowerOfUpper(q: string)
    ensures Lower(Upper(q)) == Lower(q)
  {
    assert forall i :: 0 <= i < |q| ==> LowerChar(UpperChar(q[i])) == LowerChar(q[i]);
  }
}

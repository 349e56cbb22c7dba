/** Route protection and the session callbacks of `auth.config.ts`: which
    signed-in roles may open the administrator, teacher and student areas,
    and how a user's role and id travel from sign-in through the token into
    the session. */
module Auth {
  import opened Common

  /** The signed-in user of a request as the session carries it; `role` is
      whatever string the token held. */
  datatype AuthUser = AuthUser(id: string, role: string)

  /** What the `authorized` callback answers: `true`, `false` (the framework
      then sends the visitor to the sign-in page), or a redirect to
      `/unauthorized`. */
  datatype Decision = Allow | ToLogin | ToUnauthorized

  const AdminRole := "ADMIN"
  const TeacherRole := "TEACHER"
  const StudentRole := "STUDENT"

  predicate OnAdmin(path: string) {
    IsPrefix("/admin", path)
  }

  predicate OnTeacher(path: string) {
    IsPrefix("/teacher", path)
  }

  predicate OnStudent(path: string) {
    IsPrefix("/student", path)
  }

  predicate Protected(path: string) {
    OnAdmin(path) || OnTeacher(path) || OnStudent(path)
  }

  /** The access rule as a table: the administrator area admits
      administrators, the teacher area teachers and administrators, the
      student area students and administrators. */
  predicate Permits(role: string, path: string) {
    && (OnAdmin(path) ==> role == AdminRole)
    && (OnTeacher(path) ==> role == TeacherRole || role == AdminRole)
    && (OnStudent(path) ==> role == StudentRole || role == AdminRole)
  }

  /** The `authorized` callback, test by test as written. */
  function Authorized(user: Option<AuthUser>, path: string): (d: Decision)
    ensures !Protected(path) ==> d == Allow
    ensures Protected(path) && user.None? ==> d == ToLogin
    ensures Protected(path) && user.Some? ==> d != ToLogin
    ensures Protected(path) && user.Some? ==> (d == Allow <==> Permits(user.value.role, path))
  {
    if OnAdmin(path) || OnTeacher(path) || OnStudent(path) then
      if user.Some? then
        var role := user.value.role;
        if OnAdmin(path) && role != AdminRole then ToUnauthorized
        else if OnTeacher(path) && role != TeacherRole && role != AdminRole then ToUnauthorized
        else if OnStudent(path) && role != StudentRole && role != AdminRole then ToUnauthorized
        else Allow
      else ToLogin
    else Allow
  }

  /** A signed-in administrator may open every path. */
  lemma AdminEverywhere(id: string, path: string)
    ensures Authorized(Some(AuthUser(id, AdminRole)), path) == Allow
  {
  }

  /** The areas are told apart by prefix, so `/administrator` is part of the
      administrator area: a teacher is turned away from it, and a visitor who
      is not signed in is sent to sign in. */
  lemma PrefixMatching(id: string)
    ensures Authorized(Some(AuthUser(id, TeacherRole)), "/administrator") == ToUnauthorized
    ensures Authorized(None, "/administrator") == ToLogin
    ensures Authorized(None, "/login") == Allow
  {
    assert OnAdmin("/administrator") by {
      assert "/administrator"[..6] == "/admin";
    }
    assert TeacherRole != AdminRole by {
      assert TeacherRole[0] != AdminRole[0];
    }
    assert !Protected("/login") by {
      assert "/login"[1] != "/admin"[1];
      assert "/login"[1] != "/teacher"[1];
      assert "/login"[1] != "/student"[1];
    }
  }

  /** A user who signs in: their id and role. */
  datatype SignInUser = SignInUser(id: string, role: string)

  /** The session token; `role` and `id` are absent until a sign-in sets them. */
  class Token {
    var role: Option<string>
    var id: Option<string>

    constructor ()
      ensures role.None? && id.None?
    {
      role := None;
      id := None;
    }
  }

  /** The `user` part of a session, filled in from the token. */
  class SessionUser {
    var role: Option<string>
    var id: Option<string>

    constructor ()
      ensures role.None? && id.None?
    {
      role := None;
      id := None;
    }
  }

  class Session {
    var user: SessionUser?

    constructor (user: SessionUser?)
      ensures this.user == user
    {
      this.user := user;
    }
  }

  /** The `jwt` callback: on sign-in copies the user's role and id onto the
      token; otherwise hands the token back untouched. */
  method Jwt(token: Token, user: Option<SignInUser>) returns (r: Token)
    modifies token
    ensures r == token
    ensures user.Some? ==> token.role == Some(user.value.role) && token.id == Some(user.value.id)
    ensures user.None? ==> token.role == old(token.role) && token.id == old(token.id)
  {
    if user.Some? {
      token.role := Some(user.value.role);
      token.id := Some(user.value.id);
    }
    return token;
  }

  /** The `session` callback: when there is a token and the session has a
      user, copies the token's role and id onto that user. */
  method SessionCallback(session: Session, token: Token?) returns (r: Session)
    modifies session.user
    ensures r == session && session.user == old(session.user)
    ensures token != null && session.user != null ==>
              session.user.role == old(token.role) && session.user.id == old(token.id)
    ensures token == null && session.user != null ==> unchanged(session.user)
  {
    if token != null && session.user != null {
      session.user.role := token.role;
      session.user.id := token.id;
    }
    return session;
  }

  /** Signing in and then reading the session: the session's user ends up
      with the role and id of the user who signed in. */
  method SignInThenRead(user: SignInUser, token: Token, session: Session) returns (r: Session)
    requires session.user != null
    modifies token, session.user
    ensures r == session && session.user == old(session.user)
    ensures session.user.role == Some(user.role) && session.user.id == Some(user.id)
  {
    var t := Jwt(token, Some(user));
    r := SessionCallback(session, t);
  }
}

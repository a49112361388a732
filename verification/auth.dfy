/** The login state (src/context/auth/AuthProvider.tsx): the mock
    credential check, logout, and restoring a stored user on mount.
    Browser storage is the `stored` field; what it holds is a user or
    nothing (the JSON encoding is not modelled). */
module Auth {
  import opened Base
  import opened Types

  /** The two demo accounts, in list order. Both carry id "1". */
  const MockUsers: seq<User> := [
    User("1", "Admin User", "admin@example.com", AdminRole, "admin123"),
    User("1", "Teacher User", "teacher@example.com", TeacherRole, "teacher123")
  ]

  /** The current user, the loading flag, and the stored user. */
  datatype AuthState = AuthState(user: Option<User>, isLoading: bool, stored: Option<User>)

  /** Before the mount effect: no user, loading, storage as left by the last session. */
  function Initial(stored: Option<User>): (r: AuthState)
    ensures r.user.None? && r.isLoading && r.stored == stored
  {
    AuthState(None, true, stored)
  }

  /** The mount effect: restore the stored user if there is one; loading ends either way. */
  function Mount(s: AuthState): (r: AuthState)
    ensures !r.isLoading && r.stored == s.stored
    ensures s.stored.Some? ==> r.user == s.stored
    ensures s.stored.None? ==> r.user == s.user
  {
    AuthState(if s.stored.Some? then s.stored else s.user, false, s.stored)
  }

  predicate Matches(u: User, email: string, password: string) {
    u.email == email && u.password == password
  }

  /** `login`: succeeds iff some demo account has exactly this email and
      password; the first such account becomes the current user and is
      stored. A failed login changes nothing. */
  function Login(s: AuthState, email: string, password: string): (r: (bool, AuthState))
    ensures r.0 <==> exists i :: 0 <= i < |MockUsers| && Matches(MockUsers[i], email, password)
    ensures r.0 ==> exists k :: (
      && 0 <= k < |MockUsers| && Matches(MockUsers[k], email, password)
      && r.1 == s.(user := Some(MockUsers[k]), stored := Some(MockUsers[k]))
      && forall j :: 0 <= j < k ==> !Matches(MockUsers[j], email, password))
    ensures !r.0 ==> r.1 == s
  {
    match Find(MockUsers, (u: User) => Matches(u, email, password))
    case Some(u) => (true, s.(user := Some(u), stored := Some(u)))
    case None => (false, s)
  }

  /** `logout`: no current user, nothing stored. */
  function Logout(s: AuthState): (r: AuthState)
    ensures r.user.None? && r.stored.None? && r.isLoading == s.isLoading
  {
    s.(user := None, stored := None)
  }

  /** A successful login survives a reload: the next mount restores the same user. */
  lemma LoginSurvivesReload(s: AuthState, email: string, password: string)
    requires Login(s, email, password).0
    ensures Mount(Initial(Login(s, email, password).1.stored)).user == Login(s, email, password).1.user
    ensures Login(s, email, password).1.user.Some?
  {
  }

  /** After logout a reload restores nobody. */
  lemma LogoutSurvivesReload(s: AuthState)
    ensures Mount(Initial(Logout(s).stored)).user.None?
  {
  }

  /** The demo credentials log in as the matching role; a wrong password fails. */
  lemma DemoAccounts(s: AuthState)
    ensures Login(s, "admin@example.com", "admin123").0
    ensures Login(s, "admin@example.com", "admin123").1.user.value.role == AdminRole
    ensures Login(s, "teacher@example.com", "teacher123").1.user.value.role == TeacherRole
    ensures !Login(s, "admin@example.com", "teacher123").0
  {
    assert Matches(MockUsers[0], "admin@example.com", "admin123");
    assert Matches(MockUsers[1], "teacher@example.com", "teacher123");
    assert !Matches(MockUsers[0], "teacher@example.com", "teacher123");
    assert !Matches(MockUsers[0], "admin@example.com", "teacher123");
    assert !Matches(MockUsers[1], "admin@example.com", "teacher123");
  }
}

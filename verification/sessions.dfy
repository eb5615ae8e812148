/** The signed cookie session and its two states. The handlers only ever
    write the keys `user_id`, `user_nome`, `user_email` and `logged_in`, so
    the session is those four keys, each present or absent. */
module Sessions {
  import opened Outcomes

  datatype Session = Session(
    userId: Option<nat>,
    userName: Option<string>,
    userEmail: Option<string>,
    loggedIn: Option<bool>)

  /** A session with no key at all: the anonymous state. */
  const Empty := Session(None, None, None, None)

  /** The answer of `check_session`. `MissingKey` is the KeyError raised when
      `user_id` and `logged_in` are set but a name or e-mail key is not. */
  datatype SessionStatus =
    | Anonymous
    | Authenticated(id: nat, name: string, email: string)
    | MissingKey

  /** `check_session`: authenticated exactly when `user_id` is present and
      `logged_in` is true, reporting the stored user. */
  function CheckSession(s: Session): (r: SessionStatus)
    ensures r.Anonymous? <==> !(s.userId.Some? && s.loggedIn == Some(true))
    ensures r.Authenticated? ==>
              s.userId == Some(r.id) && s.userName == Some(r.name) && s.userEmail == Some(r.email) && s.loggedIn == Some(true)
    ensures r.MissingKey? ==> s.userName.None? || s.userEmail.None?
  {
    if s.userId.Some? && s.loggedIn == Some(true) then
      if s.userName.Some? && s.userEmail.Some? then
        Authenticated(s.userId.value, s.userName.value, s.userEmail.value)
      else
        MissingKey
    else
      Anonymous
  }

  /** The four keys written by a successful login or registration. */
  function SignIn(id: nat, name: string, email: string): (s: Session)
    ensures CheckSession(s) == Authenticated(id, name, email)
  {
    Session(Some(id), Some(name), Some(email), Some(true))
  }

  /** `logout`: `session.clear()`, whatever the session held. */
  function Logout(s: Session): (r: Session)
    ensures r.userId.None? && r.userName.None? && r.userEmail.None? && r.loggedIn.None?
    ensures CheckSession(r) == Anonymous
  {
    Empty
  }

  /** The sessions the handlers can produce: empty, or all four keys set
      with `logged_in` true. */
  ghost predicate WellFormed(s: Session) {
    || s == Empty
    || (s.userId.Some? && s.userName.Some? && s.userEmail.Some? && s.loggedIn == Some(true))
  }

  /** A session the handlers produced is either anonymous (empty) or
      authenticated; the KeyError answer cannot occur. */
  lemma WellFormedIsAnonymousOrAuthenticated(s: Session)
    requires WellFormed(s)
    ensures CheckSession(s).Anonymous? <==> s == Empty
    ensures !CheckSession(s).MissingKey?
  {
  }

  /** Signing in and logging out both produce well-formed sessions. */
  lemma TransitionsKeepWellFormed(s: Session, id: nat, name: string, email: string)
    ensures WellFormed(SignIn(id, name, email))
    ensures WellFormed(Logout(s))
  {
  }
}

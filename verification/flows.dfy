/** Properties that span several requests: registration followed by
    sign-in, a repeated registration, sign-out followed by the session
    check, and the invariants every handler keeps. */
module Flows {
  import opened Outcomes
  import opened Dates
  import opened Passwords
  import opened Sessions
  import opened Accounts
  import opened Registration
  import opened LoginHandler
  import Text
  import Email

  /** After a successful registration, signing in with the same address
      (up to case and surrounding whitespace) and the same password succeeds
      as the new user. */
  lemma RegisterThenLogin(
    st: Store, before: Session, form: RegistrationForm, today: Date, hash: Hasher,
    later: Session, login: LoginForm)
    requires ValidDate(today)
    requires Register(st, before, form, today, hash).reply.Ok?
    requires NormalizeEmail(login.email) == NormalizeEmail(form.email)
    requires Text.Strip(login.password) == Text.Strip(form.password)
    ensures
      var r := Register(st, before, form, today, hash);
      var l := Login(r.store, later, login, hash);
      && l.reply == Ok(r.reply.value)
      && CheckSession(l.session) == Authenticated(st.nextId, Text.Strip(form.name), NormalizeEmail(form.email))
  {
    var r := Register(st, before, form, today, hash);
    var a := Validate(form, today).value;
    VerifyOwnDigest(hash, a.password);
    assert r.store.users[a.email].passwordHash == HashPassword(hash, Text.Strip(login.password));
  }

  /** The same, for a sign-in address that differs from the registered one
      only in letter case. */
  lemma RegisterThenLoginAnyCase(
    st: Store, before: Session, form: RegistrationForm, today: Date, hash: Hasher,
    later: Session, login: LoginForm)
    requires ValidDate(today)
    requires Register(st, before, form, today, hash).reply.Ok?
    requires Text.Lower(login.email) == Text.Lower(form.email)
    requires Text.Strip(login.password) == Text.Strip(form.password)
    ensures
      var r := Register(st, before, form, today, hash);
      Login(r.store, later, login, hash).reply == Ok(r.reply.value)
  {
    CaseVariantsNormalizeAlike(login.email, form.email);
    RegisterThenLogin(st, before, form, today, hash, later, login);
  }

  /** A second registration for an address that is now taken is refused,
      however valid the rest of its form, and changes nothing. */
  lemma SecondRegistrationRefused(
    st: Store, before: Session, form: RegistrationForm, today: Date, hash: Hasher,
    again: RegistrationForm, today': Date, current: Session)
    requires ValidDate(today) && ValidDate(today')
    requires Register(st, before, form, today, hash).reply.Ok?
    requires NormalizeEmail(again.email) == NormalizeEmail(form.email)
    requires Validate(again, today').Ok?
    ensures
      var r := Register(st, before, form, today, hash);
      var r' := Register(r.store, current, again, today', hash);
      && r'.reply == Err(EmailTaken)
      && r'.store == r.store
      && r'.session == current
  {
  }

  /** A form that fails validation gets the same refusal whatever the table
      holds: the table is consulted only after every check passed. */
  lemma ValidationIgnoresStore(
    st1: Store, st2: Store, s1: Session, s2: Session, form: RegistrationForm, today: Date, hash: Hasher)
    requires ValidDate(today)
    requires Validate(form, today).Err?
    ensures Register(st1, s1, form, today, hash).reply == Err(Validate(form, today).error)
    ensures Register(st2, s2, form, today, hash).reply == Err(Validate(form, today).error)
  {
  }

  /** A malformed address in an otherwise complete form is refused as such,
      before the table is looked at, whatever the later fields hold. */
  lemma MalformedEmailRefused(st: Store, session: Session, form: RegistrationForm, today: Date, hash: Hasher)
    requires ValidDate(today)
    requires Passes(Presence, form, today)
    requires !Email.ValidateEmail(NormalizeEmail(form.email))
    ensures Register(st, session, form, today, hash) == RegisterOutcome(Err(InvalidEmail), st, session)
  {
    ValidationFollowsCheckOrder(form, today);
    FirstFailureIsEarliest(CheckOrder, form, today, 1);
  }

  /** The table the handlers build: consistent, and keyed by addresses that
      are normalised and pass the shape test. */
  ghost predicate Registered(st: Store) {
    && Consistent(st)
    && forall e :: e in st.users ==> NormalizeEmail(e) == e && Email.ValidateEmail(e)
  }

  /** Registration keeps the table invariant; sign-in does not change the
      table at all. */
  lemma RegisterKeepsRegistered(st: Store, session: Session, form: RegistrationForm, today: Date, hash: Hasher)
    requires ValidDate(today)
    requires Registered(st)
    ensures Registered(Register(st, session, form, today, hash).store)
  {
    var r := Register(st, session, form, today, hash);
    if r.reply.Ok? {
      NormalizeEmailIdempotent(form.email);
    }
  }

  /** Every handler leaves a well-formed session well-formed, so the
      session is always anonymous or authenticated. */
  lemma HandlersKeepSessionWellFormed(
    st: Store, session: Session, form: RegistrationForm, today: Date, hash: Hasher, login: LoginForm)
    requires ValidDate(today)
    requires WellFormed(session)
    ensures WellFormed(Register(st, session, form, today, hash).session)
    ensures WellFormed(Login(st, session, login, hash).session)
    ensures WellFormed(Logout(session))
  {
  }

  /** Registering, signing out and asking for the session reports an
      anonymous visitor. */
  lemma RegisterLogoutCheck(st: Store, session: Session, form: RegistrationForm, today: Date, hash: Hasher)
    requires ValidDate(today)
    ensures CheckSession(Logout(Register(st, session, form, today, hash).session)) == Anonymous
  {
  }
}

/** The sign-in request (`login`): look the normalised address up, compare
    the stored digest with the digest of the stripped password, and sign
    the user in on a match. */
module LoginHandler {
  import opened Outcomes
  import opened Passwords
  import opened Sessions
  import opened Accounts
  import Text

  datatype LoginForm = LoginForm(email: string, password: string)

  datatype LoginError = MissingCredentials | UnknownEmail | WrongPassword {
    function Status(): int {
      match this
      case MissingCredentials => 400
      case UnknownEmail => 401
      case WrongPassword => 401
    }

    function Message(): string {
      match this
      case MissingCredentials => "Email e senha são obrigatórios!"
      case UnknownEmail => "Email não cadastrado!"
      case WrongPassword => "Senha incorreta!"
    }
  }

  /** The answer to a sign-in request and the session after it. The table
      itself is not changed. */
  datatype LoginOutcome = LoginOutcome(reply: Result<UserView, LoginError>, session: Session)

  /** `login`. Both authentication failures are 401 answers told apart by
      their message, and neither touches the session. */
  function Login(st: Store, session: Session, form: LoginForm, hash: Hasher): (r: LoginOutcome)
    ensures r.reply == Err(MissingCredentials) <==>
              |NormalizeEmail(form.email)| == 0 || |Text.Strip(form.password)| == 0
    ensures r.reply == Err(UnknownEmail) <==>
              && |NormalizeEmail(form.email)| > 0 && |Text.Strip(form.password)| > 0
              && NormalizeEmail(form.email) !in st.users
    ensures r.reply == Err(WrongPassword) <==>
              && |NormalizeEmail(form.email)| > 0 && |Text.Strip(form.password)| > 0
              && NormalizeEmail(form.email) in st.users
              && !VerifyPassword(hash, st.users[NormalizeEmail(form.email)].passwordHash, Text.Strip(form.password))
    ensures r.reply.Err? ==> r.session == session
    ensures r.reply.Ok? ==>
              && NormalizeEmail(form.email) in st.users
              && r.reply.value == View(st.users[NormalizeEmail(form.email)])
              && CheckSession(r.session) == Authenticated(r.reply.value.id, r.reply.value.name, r.reply.value.email)
  {
    var email := NormalizeEmail(form.email);
    var password := Text.Strip(form.password);
    if |email| == 0 || |password| == 0 then
      LoginOutcome(Err(MissingCredentials), session)
    else if email !in st.users then
      LoginOutcome(Err(UnknownEmail), session)
    else
      var user := st.users[email];
      if user.passwordHash != HashPassword(hash, password) then
        LoginOutcome(Err(WrongPassword), session)
      else
        LoginOutcome(Ok(View(user)), SignIn(user.id, user.name, user.email))
  }

  /** The two authentication failures share a status code but not a
      message. */
  lemma FailuresDistinguishable()
    ensures UnknownEmail.Status() == WrongPassword.Status() == 401
    ensures UnknownEmail.Message() != WrongPassword.Message()
  {
  }
}

/** The sign-up request (`cadastrar_usuario`): normalise the five form
    fields, run the validations in their fixed order, refuse a taken
    address, and otherwise insert the row and sign the new user in. */
module Registration {
  import opened Outcomes
  import opened Dates
  import opened Age
  import opened Passwords
  import opened Sessions
  import opened Accounts
  import Text
  import Email

  /** The raw form fields, before `.strip()` (and `.lower()` for the
      address). */
  datatype RegistrationForm = RegistrationForm(
    name: string,
    phone: string,
    email: string,
    password: string,
    birth: DateField)

  /** The fields of a form that passed every validation. */
  datatype Applicant = Applicant(
    name: string,
    phone: string,
    email: string,
    password: string,
    birth: Date)

  datatype RegisterError =
    | MissingFields
    | InvalidEmail
    | InvalidDate
    | Underage(age: int)
    | ShortPassword
    | EmailTaken
  {
    /** Every refusal is a client error. */
    function Status(): int {
      400
    }

    function Message(): string {
      match this
      case MissingFields => "Todos os campos são obrigatórios!"
      case InvalidEmail => "Formato de email inválido!"
      case InvalidDate => "Data de nascimento inválida! Use o formato YYYY-MM-DD"
      case Underage(age) =>
        "Não é possível cadastrar. Idade insuficiente: " + Text.IntToString(age) + " anos (mínimo: 15 anos)"
      case ShortPassword => "A senha deve ter no mínimo 6 caracteres!"
      case EmailTaken => "Este email já está cadastrado!"
    }
  }

  const MinPasswordLength := 6

  /** The validations, named in the order the handler runs them. */
  datatype Check = Presence | EmailFormat | DateFormat | MinimumAgeCheck | PasswordLength

  const CheckOrder: seq<Check> := [Presence, EmailFormat, DateFormat, MinimumAgeCheck, PasswordLength]

  /** Whether the form passes one check, judged on its own. */
  predicate Passes(c: Check, form: RegistrationForm, today: Date) {
    match c
    case Presence =>
      && |Text.Strip(form.name)| > 0
      && |Text.Strip(form.phone)| > 0
      && |NormalizeEmail(form.email)| > 0
      && |Text.Strip(form.password)| > 0
      && !form.birth.Blank?
    case EmailFormat => Email.ValidateEmail(NormalizeEmail(form.email))
    case DateFormat => ParseDate(form.birth).Some?
    case MinimumAgeCheck => AgeOfField(form.birth, today) >= MinimumAge
    case PasswordLength => |Text.Strip(form.password)| >= MinPasswordLength
  }

  /** The refusal a failing check produces. */
  function FailureOf(c: Check, form: RegistrationForm, today: Date): RegisterError {
    match c
    case Presence => MissingFields
    case EmailFormat => InvalidEmail
    case DateFormat => InvalidDate
    case MinimumAgeCheck => Underage(AgeOfField(form.birth, today))
    case PasswordLength => ShortPassword
  }

  /** The refusal of the first check in `checks` that the form fails. */
  function FirstFailure(checks: seq<Check>, form: RegistrationForm, today: Date): Option<RegisterError> {
    if checks == [] then None
    else if !Passes(checks[0], form, today) then Some(FailureOf(checks[0], form, today))
    else FirstFailure(checks[1..], form, today)
  }

  /** `FirstFailure` reports check `i` exactly when check `i` fails and
      every check before it passes. */
  lemma {:induction false} FirstFailureIsEarliest(checks: seq<Check>, form: RegistrationForm, today: Date, i: int)
    requires 0 <= i < |checks|
    ensures (!Passes(checks[i], form, today) && forall j :: 0 <= j < i ==> Passes(checks[j], form, today))
            ==> FirstFailure(checks, form, today) == Some(FailureOf(checks[i], form, today))
  {
    if i > 0 && Passes(checks[0], form, today) {
      FirstFailureIsEarliest(checks[1..], form, today, i - 1);
    }
  }

  /** `FirstFailure` is `None` exactly when every check passes. */
  lemma {:induction false} NoFailureIffAllPass(checks: seq<Check>, form: RegistrationForm, today: Date)
    ensures FirstFailure(checks, form, today).None? <==> forall j :: 0 <= j < |checks| ==> Passes(checks[j], form, today)
  {
    if checks != [] {
      NoFailureIffAllPass(checks[1..], form, today);
      assert forall j :: 1 <= j < |checks| ==> checks[j] == checks[1..][j - 1];
    }
  }

  /** `FirstFailure` over `CheckOrder`, spelled out check by check. */
  lemma CheckOrderUnfolds(form: RegistrationForm, today: Date)
    ensures FirstFailure(CheckOrder, form, today) ==
              if !Passes(Presence, form, today) then Some(MissingFields)
              else if !Passes(EmailFormat, form, today) then Some(InvalidEmail)
              else if !Passes(DateFormat, form, today) then Some(InvalidDate)
              else if !Passes(MinimumAgeCheck, form, today) then Some(Underage(AgeOfField(form.birth, today)))
              else if !Passes(PasswordLength, form, today) then Some(ShortPassword)
              else None
  {
    var c0 := CheckOrder;
    var c1 := [EmailFormat, DateFormat, MinimumAgeCheck, PasswordLength];
    var c2 := [DateFormat, MinimumAgeCheck, PasswordLength];
    var c3 := [MinimumAgeCheck, PasswordLength];
    var c4 := [PasswordLength];
    assert c0[1..] == c1 && c1[1..] == c2 && c2[1..] == c3 && c3[1..] == c4 && c4[1..] == [];
    assert FirstFailure(c4, form, today) == if !Passes(PasswordLength, form, today) then Some(ShortPassword) else None;
    assert FirstFailure(c3, form, today) ==
             if !Passes(MinimumAgeCheck, form, today) then Some(Underage(AgeOfField(form.birth, today))) else FirstFailure(c4, form, today);
    assert FirstFailure(c2, form, today) == if !Passes(DateFormat, form, today) then Some(InvalidDate) else FirstFailure(c3, form, today);
    assert FirstFailure(c1, form, today) == if !Passes(EmailFormat, form, today) then Some(InvalidEmail) else FirstFailure(c2, form, today);
  }

  /** The validation chain as the handler runs it: a passing form yields
      the normalised fields and the parsed birth date, each meeting its
      check. */
  function Validate(form: RegistrationForm, today: Date): (r: Result<Applicant, RegisterError>)
    requires ValidDate(today)
    ensures r.Ok? ==>
              && r.value.name == Text.Strip(form.name) && |r.value.name| > 0
              && r.value.phone == Text.Strip(form.phone) && |r.value.phone| > 0
              && r.value.email == NormalizeEmail(form.email) && Email.ValidateEmail(r.value.email)
              && r.value.password == Text.Strip(form.password) && |r.value.password| >= MinPasswordLength
              && ParseDate(form.birth) == Some(r.value.birth)
              && AgeOn(r.value.birth, today) >= MinimumAge
  {
    var name := Text.Strip(form.name);
    var phone := Text.Strip(form.phone);
    var email := NormalizeEmail(form.email);
    var password := Text.Strip(form.password);
    if |name| == 0 || |phone| == 0 || |email| == 0 || |password| == 0 || form.birth.Blank? then
      Err(MissingFields)
    else if !Email.ValidateEmail(email) then
      Err(InvalidEmail)
    else
      match ParseDate(form.birth)
      case None => Err(InvalidDate)
      case Some(birth) =>
        var age := AgeOfField(form.birth, today);
        if age < MinimumAge then
          Err(Underage(age))
        else if |password| < MinPasswordLength then
          Err(ShortPassword)
        else
          Ok(Applicant(name, phone, email, password, birth))
  }

  /** The handler's verdict is the refusal of the first check in
      `CheckOrder` the form fails, and success when it fails none. */
  lemma ValidationFollowsCheckOrder(form: RegistrationForm, today: Date)
    requires ValidDate(today)
    ensures Validate(form, today).Err? ==> FirstFailure(CheckOrder, form, today) == Some(Validate(form, today).error)
    ensures Validate(form, today).Ok? <==> FirstFailure(CheckOrder, form, today).None?
  {
    CheckOrderUnfolds(form, today);
    var verdict := Validate(form, today);
    if !Passes(Presence, form, today) {
      assert verdict == Err(MissingFields);
    } else if !Passes(EmailFormat, form, today) {
      assert verdict == Err(InvalidEmail);
    } else if !Passes(DateFormat, form, today) {
      assert verdict == Err(InvalidDate);
    } else if !Passes(MinimumAgeCheck, form, today) {
      assert verdict == Err(Underage(AgeOfField(form.birth, today)));
    } else if !Passes(PasswordLength, form, today) {
      assert verdict == Err(ShortPassword);
    } else {
      assert verdict.Ok?;
    }
  }

  /** The result of a registration request: the answer, and the table and
      session after it. */
  datatype RegisterOutcome = RegisterOutcome(
    reply: Result<UserView, RegisterError>,
    store: Store,
    session: Session)

  /** The part of `cadastrar_usuario` after validation: refuse a taken
      address, otherwise insert the row and sign the new user in. */
  function Admit(st: Store, session: Session, verdict: Result<Applicant, RegisterError>, hash: Hasher): (r: RegisterOutcome)
    ensures verdict.Err? ==> r == RegisterOutcome(Err(verdict.error), st, session)
    ensures verdict.Ok? && verdict.value.email in st.users ==> r == RegisterOutcome(Err(EmailTaken), st, session)
    ensures verdict.Ok? && verdict.value.email !in st.users ==>
              var a := verdict.value;
              && r.reply == Ok(UserView(st.nextId, a.name, a.email))
              && r.store.users.Keys == st.users.Keys + {a.email}
              && (forall e :: e in st.users ==> r.store.users[e] == st.users[e])
              && r.store.users[a.email] == User(st.nextId, a.name, a.phone, a.email, HashPassword(hash, a.password), a.birth)
              && CheckSession(r.session) == Authenticated(st.nextId, a.name, a.email)
    ensures Consistent(st) ==> Consistent(r.store)
  {
    match verdict
    case Err(e) => RegisterOutcome(Err(e), st, session)
    case Ok(a) =>
      if a.email in st.users then
        RegisterOutcome(Err(EmailTaken), st, session)
      else
        var store' := Insert(st, a.name, a.phone, a.email, HashPassword(hash, a.password), a.birth);
        var user := store'.users[a.email];
        RegisterOutcome(Ok(View(user)), store', SignIn(user.id, user.name, user.email))
  }

  /** `cadastrar_usuario`: validate, then admit. A refusal leaves table and
      session alone, and the table stays consistent. */
  function Register(st: Store, session: Session, form: RegistrationForm, today: Date, hash: Hasher): (r: RegisterOutcome)
    requires ValidDate(today)
    ensures r.reply.Err? ==> r.store == st && r.session == session
    ensures r.reply.Ok? ==> Validate(form, today).Ok?
    ensures Consistent(st) ==> Consistent(r.store)
  {
    Admit(st, session, Validate(form, today), hash)
  }

  /** A registration that fails validation is refused with the
      validation verdict. */
  lemma RegisterRefusesInvalid(st: Store, session: Session, form: RegistrationForm, today: Date, hash: Hasher)
    requires ValidDate(today)
    requires Validate(form, today).Err?
    ensures Register(st, session, form, today, hash) == RegisterOutcome(Err(Validate(form, today).error), st, session)
  {
  }

  /** A valid registration is refused with "already registered" exactly
      when its normalised address is taken. */
  lemma RegisterRefusesTaken(st: Store, session: Session, form: RegistrationForm, today: Date, hash: Hasher)
    requires ValidDate(today)
    requires Validate(form, today).Ok?
    ensures NormalizeEmail(form.email) in st.users <==>
              Register(st, session, form, today, hash) == RegisterOutcome(Err(EmailTaken), st, session)
    ensures NormalizeEmail(form.email) !in st.users <==> Register(st, session, form, today, hash).reply.Ok?
  {
    assert Validate(form, today).value.email == NormalizeEmail(form.email);
  }

  /** A successful registration adds exactly one row, under the normalised
      address, holding the stripped name and phone and the digest of the
      stripped password, with the next id; it returns that row's
      `{id, nome, email}` and signs the new user in. */
  lemma RegisterSuccess(st: Store, session: Session, form: RegistrationForm, today: Date, hash: Hasher)
    requires ValidDate(today)
    requires Register(st, session, form, today, hash).reply.Ok?
    ensures var r := Register(st, session, form, today, hash);
            var email := NormalizeEmail(form.email);
            && email !in st.users
            && r.store.users.Keys == st.users.Keys + {email}
            && |r.store.users| == |st.users| + 1
            && (forall e :: e in st.users ==> r.store.users[e] == st.users[e])
            && r.store.users[email] == User(st.nextId, Text.Strip(form.name), Text.Strip(form.phone), email,
                                            HashPassword(hash, Text.Strip(form.password)), ParseDate(form.birth).value)
            && r.reply.value == UserView(st.nextId, Text.Strip(form.name), email)
            && CheckSession(r.session) == Authenticated(st.nextId, Text.Strip(form.name), email)
  {
    var r := Register(st, session, form, today, hash);
    var a := Validate(form, today).value;
    assert r == Admit(st, session, Validate(form, today), hash);
    assert a.email !in st.users;
  }
}

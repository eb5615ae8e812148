# Sign-up and login decision logic, modelled in Dafny

This project models the decision logic of a small Flask application (`app.py`).
The application registers users, checks their age and logs them in. The web
layer and the PostgreSQL layer are replaced by plain values:

- the `usuario` table is a `map` from the normalised e-mail address to the
  user row, plus the counter behind the SERIAL id column (`Accounts`);
- the signed cookie session is a record of the four keys the handlers write:
  `user_id`, `user_nome`, `user_email` and `logged_in` (`Sessions`);
- "today" is a parameter instead of `date.today()`; one value stands for every clock read in a request (see AgeCheck.VerifyAgeAsWritten under Left out);
- the SHA-256 password digest is a function-valued parameter
  (`Passwords.Hasher`), deterministic and otherwise unconstrained.

Modules, following the parts of `app.py`:

- `Text`: the field normalisation the handlers apply. `str.strip()` is modelled
  over Python's full whitespace set, and `str.lower()` over ASCII letters. Also
  decimal rendering of ages inside messages.
- `Dates`: proleptic Gregorian dates with years 1 to 9999, as `datetime.date`
  has them. Covers the leap-year rule, month lengths, `date.replace(year=…)`
  and `toordinal()`, whose differences give `(a - b).days`. The birth-date
  field is `Blank`, `Unreadable`, or three numbers that `strptime` may still
  reject.
- `Age`: `calcular_idade` and the minimum age of 15.
- `AgeCheck`: the `/api/verificar-idade` handler. It includes the remaining-time
  estimate in 30-day months or days, and the error answer when the
  fifteenth anniversary does not exist (a Feb 29 birth whose anniversary year
  is a common year, or a year past 9999).
- `Email`: `validate_email`. The regular expression
  `^[a-zA-Z0-9._%+-]+@[a-zA-Z0-9.-]+\.[a-zA-Z]{2,}$` is stated as an
  existential split of the string into its parts. It is proved equal to a
  direct scan: first `@`, then last dot. Python's `$` also matches before a
  final newline, and the model keeps that.
- `Passwords`, `Sessions`, `Accounts`: hashing, session states, and the table.
- `Registration`: `cadastrar_usuario`. Its five validations are also given as
  an ordered list of named checks, and the handler's verdict is proved to be
  the refusal of the first failing check. Then come the uniqueness test, the
  insert and the automatic sign-in.
- `LoginHandler`: `login`, with its two distinct 401 failures.
- `Flows`: properties across requests. Registering and then logging in
  succeeds. A second registration of the same address is refused. Validation
  never depends on the table. Logout leads to an anonymous session check.
  Every handler keeps the table and session invariants.

## Model

| member | source | states |
|---|---|---|
| Text.Strip | app.py:204-208 | `str.strip()`; its ensures gives only that the result is no longer than the field, and Text.StripCharacterized states what it cuts |
| Text.Lower | app.py:206 | `str.lower()` over ASCII letters: same length, each character lowered one by one (see Text.Lower under Left out) |
| Text.StripCharacterized | app.py:204-208 | `strip()` yields the piece of the field between leading and trailing whitespace: nothing but whitespace is cut on either side, the result neither starts nor ends with whitespace, and it is empty exactly when the field is all whitespace |
| Text.StripIdempotent | app.py:204-208 | stripping an already stripped field changes nothing |
| Text.StripLowerCommute | app.py:206 | `email.strip().lower()` equals `email.lower().strip()` |
| Accounts.NormalizeEmail | app.py:206 | the normalised address is empty exactly when the raw field is all whitespace |
| Accounts.NormalizeEmailIdempotent | app.py:206 | normalising a normalised address changes nothing, so stored keys are fixed points |
| Accounts.CaseVariantsNormalizeAlike | app.py:330 | two addresses that differ only in letter case normalise to the same key |
| Accounts.Insert | app.py:274-283 | the insert adds exactly one row under the new address, with the next id, keeps every other row, grows the table by one and keeps ids unique and below the counter |
| Email.ValidateEmail | app.py:27-30 | `validate_email`; a predicate with no ensures of its own, characterised by Email.ValidateEmailMatchesPattern |
| Email.ValidateEmailMatchesPattern | app.py:27-30 | the scanning test accepts exactly the strings the anchored pattern matches: local part, `@`, domain, `.`, two or more letters, optionally followed by one newline |
| Email.NoNewlineMeansWholeMatch | app.py:27-30 | for a string without a final newline, acceptance is the whole-string pattern match |
| Email.AcceptedHasAt | app.py:27-30 | every accepted string contains `@`, with or without a final newline, so a string with no `@` is rejected |
| Email.AcceptedHasAtAndLetterEnding | app.py:29-30 | an accepted string without a final newline contains `@` and ends in two ASCII letters, so such a string lacking either is rejected |
| Email.ValidHasOneAt | app.py:29 | every accepted string, with or without a final newline, has exactly one `@`, not in first position |
| Email.NewlineAfterMatchAccepted | app.py:29-30 | a matching address followed by one newline is accepted too, because of `$` |
| Email.ExampleAccepted | app.py:29-30 | `a@b.co` is accepted |
| Dates.ParseDate | app.py:32-38 | the date field parses exactly when its three numbers name a real calendar date in years 1 to 9999 |
| Dates.WithYear | app.py:166 | `replace(year=y)` fails exactly when y is outside 1 to 9999 or the date is Feb 29 and y is a common year; otherwise only the year changes |
| Dates.DaysBetween | app.py:169 | `(a - b).days` as the difference of `toordinal()` values; no ensures of its own, characterised by Dates.DaysBetweenSign and Dates.OrdinalMonotone |
| Dates.DaysBetweenSign | app.py:169 | the day difference is positive exactly when the first date is later, and zero exactly when the dates are equal |
| Dates.OrdinalMonotone | app.py:169 | day ordinals follow the date order in both directions, so a day difference is positive exactly when the first date is later |
| Age.AgeOn | app.py:51-59 | the age is the year difference or one less |
| Age.AgeOfField | app.py:40-62 | `calcular_idade` on the raw field gives the age of the parsed date, and 0 when the field does not parse |
| Age.AgeBelowYearDifference | app.py:52-57 | the age is one less than the year difference exactly when today's (month, day) is lexicographically before the birth (month, day) |
| Age.AgeAtLeastIff | app.py:52-57 | the age is at least n exactly when the n-th anniversary is not after today |
| Age.AgeOnAnniversary | app.py:52-57 | on the n-th anniversary the age is n; a birth exactly 15 years back is eligible |
| Age.AgeMonotone | app.py:52-57 | the age never decreases as today moves forward |
| Age.Eligible | app.py:154-155 | `idade_valida`, the computed age at least 15; no ensures of its own, characterised by Age.EligibleIffAnniversaryReached |
| Age.EligibleIffAnniversaryReached | app.py:153-155 | `idade_valida` holds exactly from the fifteenth anniversary onward |
| AgeCheck.RemainingTime | app.py:169-178 | for d > 0 remaining days the message reports m = d // 30 months when m > 0, with m*30 <= d < (m+1)*30, and d days otherwise; d <= 0 gives the bare message |
| AgeCheck.DaysLeftIffIneligible | app.py:160-171 | when the fifteenth anniversary exists and both clock reads give the same day, the remaining-day count is positive exactly when the person is not eligible |
| AgeCheck.VerifyAgeAsWritten | app.py:132-195 | the handler as written: blank field 400, unparsable field 400; the 500 answer occurs exactly when the date parses and the person is eligible or the fifteenth anniversary does not exist; otherwise an ineligible date gets the same answer as the corrected handler, the estimate |
| AgeCheck.VerifyAge | app.py:132-195 | corrected handler: same 400 answers; `idade_valida` is `age >= 15`; the eligible answer says so; an ineligible answer always carries a months or days estimate; the 500 answer occurs exactly when the person is ineligible and the anniversary does not exist |
| AgeCheck.IneligibleEstimate | app.py:160-176 | corrected handler, ineligible person whose fifteenth anniversary exists: with d the days from today to the anniversary, d > 0, and the answer gives d // 30 months when d >= 30 and d days when d < 30 |
| AgeCheck.AsWrittenDiffersOnlyWhenEligible | app.py:158-186 | the handler as written and the corrected one differ exactly on eligible birth dates |
| AgeCheck.EligibleAnswerLostAsWritten | app.py:158-195 | born 2000-01-01, asked 2026-10-10: 500 as written, eligible at 26 when corrected |
| AgeCheck.FifteenthBirthdayBoundary | app.py:150-159 | on the fifteenth birthday the corrected handler (VerifyAge) answers eligible at 15, while the handler as written answers 500; on any earlier day the corrected handler does not answer eligible |
| AgeCheck.LeapDayBirthFails | app.py:160-195 | in the corrected handler (VerifyAge), an ineligible Feb 29 birth whose fifteenth anniversary year is common ends in the 500 answer |
| AgeCheck.LeapDayExample | app.py:160-195 | born 2008-02-29: the corrected handler (VerifyAge) answers 500 on 2023-02-28 and eligible at 15 on 2023-03-01; the handler as written answers 500 on both days |
| Passwords.HashPassword | app.py:19-21 | `hash_password`: the digest function applied to the password; no ensures of its own, the digest function being a parameter |
| Passwords.VerifyPassword | app.py:23-25 | `verify_password`: the stored digest equals the digest of the offered password; no ensures of its own, characterised by Passwords.VerifyOwnDigest |
| Passwords.VerifyOwnDigest | app.py:19-25 | `verify_password(hash_password(p), p)` holds for every password |
| Sessions.CheckSession | app.py:455-467 | the check reports authenticated exactly when `user_id` is present and `logged_in` is true, returning the stored id, name and address; with either of the latter missing it fails (the KeyError) |
| Sessions.SignIn | app.py:286-291 | the keys written on sign-in make the session check report that user |
| Sessions.Logout | app.py:446-453 | after `session.clear()` no key remains and the session check reports anonymous |
| Sessions.WellFormedIsAnonymousOrAuthenticated | app.py:455-467 | a session the handlers produced is either empty (anonymous) or authenticated, never missing a key the check reads |
| Sessions.TransitionsKeepWellFormed | app.py:446-453 | sign-in and logout produce sessions of the two legal shapes |
| Registration.FirstFailureIsEarliest | app.py:212-248 | the first failing check, after only passing checks, decides the refusal |
| Registration.NoFailureIffAllPass | app.py:212-248 | no refusal exactly when every check passes |
| Registration.Validate | app.py:203-248 | a form that passes validation yields the stripped name and phone (non-empty), the normalised address that passes the shape test, the stripped password of at least 6 characters, and a parsed birth date at least 15 years back |
| Registration.ValidationFollowsCheckOrder | app.py:212-248 | the validation verdict is the refusal of the first failing check in the order presence, e-mail shape, date, age >= 15, password length, and success when none fails |
| Registration.Admit | app.py:258-301 | after validation: a taken address is refused with nothing changed; otherwise one row is added with the digest of the password, the view of that row is returned, and the session reports the new user |
| Registration.Register | app.py:199-322 | a refused registration changes neither table nor session; the table stays consistent; success implies validation passed |
| Registration.RegisterRefusesInvalid | app.py:212-248 | a form failing validation is refused with the validation verdict and changes nothing |
| Registration.RegisterRefusesTaken | app.py:262-268 | a valid form is refused as already registered exactly when its normalised address is in the table, and otherwise succeeds in the model (column widths are not enforced, see Registration.Register under Left out) |
| Registration.RegisterSuccess | app.py:270-301 | success adds exactly one row under the normalised address with the stripped fields, the digest of the stripped password and the next id, keeps all other rows, returns `{id, nome, email}` and signs the user in |
| LoginHandler.Login | app.py:326-418 | 400 when either field is empty after normalising; 401 "Email não cadastrado" exactly when the address is unknown; 401 "Senha incorreta" exactly when the stored digest differs from the password's; both failures leave the session alone; success signs in the stored user |
| LoginHandler.FailuresDistinguishable | app.py:365-382 | the two authentication failures share status 401 but carry different messages |
| Flows.RegisterThenLogin | app.py:330-403 | after a successful registration, logging in with the same normalised address and password succeeds as the new user |
| Flows.RegisterThenLoginAnyCase | app.py:330-363 | the same holds for a login address differing only in letter case |
| Flows.SecondRegistrationRefused | app.py:262-268 | a second valid registration for the same address is refused as already registered and changes nothing |
| Flows.ValidationIgnoresStore | app.py:212-263 | a form failing validation gets the same refusal whatever the table holds |
| Flows.MalformedEmailRefused | app.py:219-224 | a complete form with a malformed address is refused as such, whatever the later fields, before any lookup |
| Flows.RegisterKeepsRegistered | app.py:199-291 | registration keeps every stored key normalised, shape-valid and unique with unique ids |
| Flows.HandlersKeepSessionWellFormed | app.py:286-291 | registration, login and logout keep the session anonymous or fully authenticated |
| Flows.RegisterLogoutCheck | app.py:446-467 | registering, logging out and checking the session reports not authenticated |

## Findings

| source | as written | input that shows it | evidently intended | confidence | as-written member | corrected member |
|---|---|---|---|---|---|---|
| app.py:158-186 | `hoje` is assigned only in the ineligible branch (line 163) but read for `data_hoje` (line 186); the resulting UnboundLocalError is caught and answered with 500 | birth date 2000-01-01 on 2026-10-10 (any eligible date) | 200 with `idade_valida: true` and "Idade válida: 26 anos" | high (reasoned from the code; not executed) | AgeCheck.VerifyAgeAsWritten, AgeCheck.EligibleAnswerLostAsWritten | AgeCheck.VerifyAge |

## Left out

- Flask routing, `render_template`, redirects, `index`, `login_page`, `cadastro_page` (with its date bounds), `dashboard` and `listar_usuarios`: presentation only.
- psycopg2: connections, SQL text, commit and rollback, `criar_tabela`. The table is an in-memory map. The 500 answers for a failed connection (app.py:251-256, app.py:343-348) and for database exceptions are not modelled.
- Registration.Register: the column widths `nome VARCHAR(100)`, `telefone VARCHAR(20)` and `email VARCHAR(100)` (app.py:82-84) are not enforced. A stripped field longer than its column makes the INSERT at app.py:281 raise, and the program answers 500 "Erro no cadastro: …" (app.py:303-309), where the model reports success.
- LoginHandler.Login: the best-effort `ultimo_login` update (app.py:386-397) is left out, so the model's login never changes the table. `login` swallows that failure itself (app.py:395-397).
- The race between two simultaneous registrations of one address, and the database's unique constraint behind it: concurrency.
- SHA-256 itself: `Passwords.Hasher` is any deterministic function. Nothing is assumed about collisions.
- The lexical rules of `strptime('%Y-%m-%d')`: a non-blank field is either `Unreadable` or three numbers.
- AgeCheck.VerifyAgeAsWritten: `verificar_idade` reads the clock twice, once inside `calcular_idade` (app.py:49) for the age and again at app.py:163 for the remaining days. The model uses one `today` for both reads. So the bare answer "Idade insuficiente: N anos (mínimo: 15 anos)" (app.py:177-178), which the program gives when the date changes between the two reads (born 2011-10-11, first read 2026-10-10, second read 2026-10-11), cannot occur in the model. The same holds for AgeCheck.VerifyAge.
- Text.Lower: only ASCII letters are lowered, so the result has the length of its input. Python's `str.lower()` also maps non-ASCII letters, some of them onto ASCII (the Kelvin sign becomes `k`), and some into two code points (U+0130 becomes `i` followed by U+0307), which lengthens the string.
- Accounts.NormalizeEmail: its bound `|email| <= |raw|` holds only because lowering is ASCII-only. With Python's full `str.lower()` the normalised address can be longer than the field.
- AgeCheck.VerifyAge: the 500 answer's message keeps only the fixed prefix, not the exception text. The echoed fields `data_nascimento`, `data_hoje` and `idade_minima` are not part of the reply.
- `print` logging, cookie settings, the hard-coded secret key and database credentials, and session expiry on the client side.

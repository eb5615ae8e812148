/** The age-check request (`verificar_idade`): read the birth-date field,
    compute the age as of `today`, and answer whether it reaches the
    minimum, with an estimate of the time left when it does not. */
module AgeCheck {
  import opened Outcomes
  import opened Dates
  import opened Age
  import Text

  /** The human-readable part of a successful answer. */
  datatype AgeMessage =
    | OldEnough(age: int)
    | MonthsLeft(age: int, months: int)
    | DaysLeft(age: int, days: int)
    | TooYoung(age: int)
  {
    function Render(): string {
      var years := Text.IntToString(age);
      match this
      case OldEnough(_) => "Idade válida: " + years + " anos (mínimo: 15 anos)"
      case MonthsLeft(_, months) =>
        "Idade insuficiente: " + years + " anos. Faltam " + Text.IntToString(months) + " meses para completar 15 anos"
      case DaysLeft(_, days) =>
        "Idade insuficiente: " + years + " anos. Faltam " + Text.IntToString(days) + " dias para completar 15 anos"
      case TooYoung(_) => "Idade insuficiente: " + years + " anos (mínimo: 15 anos)"
    }
  }

  /** The answer to one age-check request. */
  datatype AgeReply =
    | MissingDate
    | InvalidDate
    | Checked(age: int, eligible: bool, message: AgeMessage)
    | ServerError
  {
    function Status(): int {
      match this
      case MissingDate => 400
      case InvalidDate => 400
      case Checked(_, _, _) => 200
      case ServerError => 500
    }

    function Message(): string {
      match this
      case MissingDate => "Informe uma data de nascimento"
      case InvalidDate => "Data de nascimento inválida! Use o formato YYYY-MM-DD"
      case Checked(_, _, m) => m.Render()
      case ServerError => "Erro ao verificar idade: "
    }
  }

  /** The estimate for someone `days` days short of the minimum age: whole
      30-day months when there is at least one, the day count otherwise. */
  function RemainingTime(age: int, days: int): (m: AgeMessage)
    ensures m.age == age && !m.OldEnough?
    ensures m.TooYoung? <==> days <= 0
    ensures m.MonthsLeft? ==> m.months >= 1 && m.months * 30 <= days < (m.months + 1) * 30
    ensures m.DaysLeft? ==> 0 < days < 30 && m.days == days
  {
    if days > 0 then
      var months := days / 30;
      if months > 0 then MonthsLeft(age, months) else DaysLeft(age, days)
    else
      TooYoung(age)
  }

  /** The fifteenth anniversary exists exactly when it is not Feb 29 of a
      common year and stays within year 9999; once it exists, today is
      strictly before it exactly when the person is not yet eligible. */
  lemma DaysLeftIffIneligible(birth: Date, today: Date)
    requires ValidDate(birth) && ValidDate(today)
    requires WithYear(birth, birth.year + MinimumAge).Some?
    ensures DaysBetween(WithYear(birth, birth.year + MinimumAge).value, today) > 0 <==> !Eligible(birth, today)
  {
    var a := WithYear(birth, birth.year + MinimumAge).value;
    assert a == Anniversary(birth, MinimumAge);
    EligibleIffAnniversaryReached(birth, today);
    OrdinalMonotone(today, a);
  }

  /** The request handler as written. When the person is eligible the
      handler reads `hoje`, which only the ineligible branch assigns, so the
      request ends in the generic error answer instead of a verdict. */
  function VerifyAgeAsWritten(field: DateField, today: Date): (r: AgeReply)
    requires ValidDate(today)
    ensures r == MissingDate <==> field.Blank?
    ensures r == InvalidDate <==> !field.Blank? && ParseDate(field).None?
    ensures r.Checked? ==> !r.eligible
    ensures ParseDate(field).Some? && Eligible(ParseDate(field).value, today) ==> r == ServerError
    ensures r == ServerError <==>
              && ParseDate(field).Some?
              && (|| Eligible(ParseDate(field).value, today)
                  || WithYear(ParseDate(field).value, ParseDate(field).value.year + MinimumAge).None?)
    ensures ParseDate(field).Some? && !Eligible(ParseDate(field).value, today) ==> r == VerifyAge(field, today)
  {
    if field.Blank? then MissingDate
    else
      match ParseDate(field)
      case None => InvalidDate
      case Some(birth) =>
        var age := AgeOn(birth, today);
        if age >= MinimumAge then
          ServerError
        else
          match WithYear(birth, birth.year + MinimumAge)
          case None => ServerError
          case Some(anniversary) => Checked(age, false, RemainingTime(age, DaysBetween(anniversary, today)))
  }

  /** The request handler with `hoje` available on both branches: the
      verdict is `age >= 15`, the eligible answer says so, and the
      ineligible answer always counts months or days still to go. */
  function VerifyAge(field: DateField, today: Date): (r: AgeReply)
    requires ValidDate(today)
    ensures r == MissingDate <==> field.Blank?
    ensures r == InvalidDate <==> !field.Blank? && ParseDate(field).None?
    ensures r.Checked? ==> ParseDate(field).Some? && r.age == AgeOn(ParseDate(field).value, today)
    ensures r.Checked? ==> (r.eligible <==> r.age >= MinimumAge)
    ensures r.Checked? && r.eligible ==> r.message == OldEnough(r.age)
    ensures r.Checked? && !r.eligible ==> r.message.MonthsLeft? || r.message.DaysLeft?
    ensures r == ServerError <==>
              && ParseDate(field).Some?
              && !Eligible(ParseDate(field).value, today)
              && WithYear(ParseDate(field).value, ParseDate(field).value.year + MinimumAge).None?
  {
    if field.Blank? then MissingDate
    else
      match ParseDate(field)
      case None => InvalidDate
      case Some(birth) =>
        var age := AgeOn(birth, today);
        if age >= MinimumAge then
          Checked(age, true, OldEnough(age))
        else
          match WithYear(birth, birth.year + MinimumAge)
          case None => ServerError
          case Some(anniversary) =>
            DaysLeftIffIneligible(birth, today);
            Checked(age, false, RemainingTime(age, DaysBetween(anniversary, today)))
  }

  /** An ineligible person whose fifteenth anniversary exists is told how
      long is left: with d the days from today to that anniversary, d is
      positive, and the answer gives d // 30 months when that is at least
      one, and d days otherwise. */
  lemma IneligibleEstimate(birth: Date, today: Date)
    requires ValidDate(birth) && ValidDate(today)
    requires !Eligible(birth, today)
    requires WithYear(birth, birth.year + MinimumAge).Some?
    ensures var d := DaysBetween(WithYear(birth, birth.year + MinimumAge).value, today);
            var r := VerifyAge(Entered(birth.year, birth.month, birth.day), today);
            && d > 0
            && r.Checked? && !r.eligible
            && (r.message.MonthsLeft? ==> r.message.months == d / 30 && d >= 30)
            && (r.message.DaysLeft? ==> r.message.days == d && d < 30)
  {
    DaysLeftIffIneligible(birth, today);
  }

  /** The two handlers agree everywhere except on eligible birth dates. */
  lemma AsWrittenDiffersOnlyWhenEligible(field: DateField, today: Date)
    requires ValidDate(today)
    ensures VerifyAgeAsWritten(field, today) != VerifyAge(field, today) <==>
              ParseDate(field).Some? && Eligible(ParseDate(field).value, today)
  {
  }

  /** A concrete eligible request that the handler as written answers with
      a server error: born 2000-01-01, asked on 2026-10-10. */
  lemma EligibleAnswerLostAsWritten()
    ensures VerifyAgeAsWritten(Entered(2000, 1, 1), Date(2026, 10, 10)) == ServerError
    ensures VerifyAge(Entered(2000, 1, 1), Date(2026, 10, 10)) == Checked(26, true, OldEnough(26))
  {
  }

  /** Someone born exactly fifteen years before today is eligible, and
      someone whose fifteenth birthday is still ahead is not; the handler
      as written loses the eligible answer to the error answer. */
  lemma FifteenthBirthdayBoundary(birth: Date, today: Date)
    requires ValidDate(birth) && ValidDate(today)
    ensures today == Anniversary(birth, MinimumAge) ==> VerifyAge(Entered(birth.year, birth.month, birth.day), today) == Checked(15, true, OldEnough(15))
    ensures today == Anniversary(birth, MinimumAge) ==> VerifyAgeAsWritten(Entered(birth.year, birth.month, birth.day), today) == ServerError
    ensures Before(today, Anniversary(birth, MinimumAge)) ==> !VerifyAge(Entered(birth.year, birth.month, birth.day), today).Checked? || !VerifyAge(Entered(birth.year, birth.month, birth.day), today).eligible
  {
    AgeOnAnniversary(birth, MinimumAge);
    EligibleIffAnniversaryReached(birth, today);
  }

  /** A Feb 29 birth whose fifteenth anniversary falls in a common year has
      no anniversary date, so an ineligible request ends in the error answer
      rather than an estimate. */
  lemma LeapDayBirthFails(birth: Date, today: Date)
    requires ValidDate(birth) && ValidDate(today)
    requires birth.month == 2 && birth.day == 29 && !IsLeapYear(birth.year + MinimumAge)
    requires !Eligible(birth, today)
    ensures VerifyAge(Entered(birth.year, birth.month, birth.day), today) == ServerError
  {
  }

  /** Born 2008-02-29: on 2023-02-28 the request fails, on 2023-03-01 the
      person is fifteen; the handler as written fails on both days. */
  lemma LeapDayExample()
    ensures VerifyAge(Entered(2008, 2, 29), Date(2023, 2, 28)) == ServerError
    ensures VerifyAge(Entered(2008, 2, 29), Date(2023, 3, 1)) == Checked(15, true, OldEnough(15))
    ensures VerifyAgeAsWritten(Entered(2008, 2, 29), Date(2023, 2, 28)) == ServerError
    ensures VerifyAgeAsWritten(Entered(2008, 2, 29), Date(2023, 3, 1)) == ServerError
  {
  }
}

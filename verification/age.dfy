/** Whole-years age of a person born on `birth`, as of `today`
    (`calcular_idade`), and the eligibility rule built on it. */
module Age {
  import opened Dates

  /** The minimum age for registering. */
  const MinimumAge := 15

  /** The year difference, less one while the birthday of the current year
      is still ahead. `today` is a parameter: `calcular_idade` calls
      `date.today()`. */
  function AgeOn(birth: Date, today: Date): (age: int)
    ensures age == today.year - birth.year || age == today.year - birth.year - 1
  {
    var years := today.year - birth.year;
    if MonthDayBefore(today, birth) then years - 1 else years
  }

  /** `calcular_idade` on the raw field: the age when the field names a
      real date, and 0 (the value its exception handler returns) otherwise. */
  function AgeOfField(field: DateField, today: Date): (age: int)
    ensures ParseDate(field).None? ==> age == 0
    ensures ParseDate(field).Some? ==> age == AgeOn(ParseDate(field).value, today)
  {
    match ParseDate(field)
    case Some(birth) => AgeOn(birth, today)
    case None => 0
  }

  /** The day `n` years after `birth`, as a triple that may name no real
      date (Feb 29 in a common year). */
  function Anniversary(birth: Date, n: int): Date {
    Date(birth.year + n, birth.month, birth.day)
  }

  /** `idade_valida`: at least the minimum age. */
  predicate Eligible(birth: Date, today: Date) {
    AgeOn(birth, today) >= MinimumAge
  }

  /** The age is one less than the year difference exactly when today's
      (month, day) comes before the birth (month, day). */
  lemma AgeBelowYearDifference(birth: Date, today: Date)
    ensures AgeOn(birth, today) == today.year - birth.year - 1 <==> MonthDayBefore(today, birth)
    ensures AgeOn(birth, today) == today.year - birth.year <==> !MonthDayBefore(today, birth)
  {
  }

  /** Someone is at least `n` years old exactly when their `n`-th
      anniversary is not after today. */
  lemma AgeAtLeastIff(birth: Date, today: Date, n: int)
    ensures AgeOn(birth, today) >= n <==> !Before(today, Anniversary(birth, n))
  {
  }

  /** On the `n`-th anniversary itself the age is exactly `n`; in particular
      a birth date exactly fifteen years back is eligible. */
  lemma AgeOnAnniversary(birth: Date, n: int)
    ensures AgeOn(birth, Anniversary(birth, n)) == n
    ensures n >= MinimumAge ==> Eligible(birth, Anniversary(birth, n))
  {
  }

  /** Age never decreases as today moves forward. */
  lemma AgeMonotone(birth: Date, today: Date, later: Date)
    requires !Before(later, today)
    ensures AgeOn(birth, today) <= AgeOn(birth, later)
  {
  }

  /** Every day strictly before the fifteenth anniversary is ineligible,
      and every day from it onward is eligible. */
  lemma EligibleIffAnniversaryReached(birth: Date, today: Date)
    ensures Eligible(birth, today) <==> !Before(today, Anniversary(birth, MinimumAge))
  {
    AgeAtLeastIff(birth, today, MinimumAge);
  }
}

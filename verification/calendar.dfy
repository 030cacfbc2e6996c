/** The calendar rules of AttendanceApp.mark in main.py: on which days no
    attendance is taken at all, and why.

    The clock and the holiday library are not modelled: "today" arrives as
    its formatted date string ("%d-%m-%Y"), its weekday index and its day
    name, and the public-holiday calendar arrives as the set of formatted
    dates it contains. */
module Calendar {
  import opened Basics

  /** Python's date.weekday(): Monday is 0, Sunday is 6. */
  type Weekday = w: int | 0 <= w < 7

  const Sunday: Weekday := 6

  /** Today as the app sees it: date.today() formatted with "%d-%m-%Y", its
      weekday index and its "%A" day name. */
  datatype Today = Today(date: string, weekday: Weekday, dayName: string)

  /** The static configuration: the public holidays (by formatted date) and
      the list of vacation date strings. */
  datatype Config = Config(holidays: set<string>, vacations: seq<string>)

  /** The reasons mark gives for taking no attendance, in its order of checks. */
  datatype Exemption = NoSchoolSunday | PublicHoliday | OnVacation

  /** The exemption checks of mark, first match wins: Sunday, then public
      holiday, then vacation list. None means attendance is required. */
  function Exempt(today: Today, config: Config): (e: Option<Exemption>)
    ensures e == None <==>
      today.weekday != Sunday && today.date !in config.holidays && today.date !in config.vacations
    ensures e == Some(NoSchoolSunday) <==> today.weekday == Sunday
    ensures e == Some(PublicHoliday) <==>
      today.weekday != Sunday && today.date in config.holidays
    ensures e == Some(OnVacation) <==>
      today.weekday != Sunday && today.date !in config.holidays && today.date in config.vacations
  {
    if today.weekday == Sunday then Some(NoSchoolSunday)
    else if today.date in config.holidays then Some(PublicHoliday)
    else if today.date in config.vacations then Some(OnVacation)
    else None
  }

  /** Each reason on its own is enough to exempt a day, whatever the others say:
      the exemption only depends on whether some reason applies, never on a
      reason cancelling another. */
  lemma ExemptWhenAnyReason(today: Today, config: Config)
    ensures Exempt(today, config).Some? <==>
      today.weekday == Sunday || today.date in config.holidays || today.date in config.vacations
  {
  }

  /** Adding holidays or vacation dates never turns an exempt day into a
      working day. */
  lemma ExemptMonotone(today: Today, config: Config, more: Config)
    requires config.holidays <= more.holidays
    requires forall v :: v in config.vacations ==> v in more.vacations
    ensures Exempt(today, config).Some? ==> Exempt(today, more).Some?
  {
  }
}

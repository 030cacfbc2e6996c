/** Concrete walks through the ledger. */
module Scenarios {
  import opened Basics
  import opened Ledger
  import opened Calendar
  import opened AttendanceApp

  /** A fresh workbook with one Present row for 01-01-2026 knows that date and
      no other. */
  lemma FirstDayRecorded()
    ensures var s := SaveAttendance(Init(None), "01-01-2026", "Thursday", "Present", false);
            AlreadyMarked(s.rows, "01-01-2026") && !AlreadyMarked(s.rows, "02-01-2026")
  {
    var s := SaveAttendance(Init(None), "01-01-2026", "Thursday", "Present", false);
    assert s.rows[0].date == "01-01-2026";
    assert s.rows[0].date != "02-01-2026";
  }

  /** A fresh workbook after four days marked with the given statuses, on
      consecutive dates of the first week of January 2026. */
  function FourDays(a: string, b: string, c: string, d: string): (s: Sheet)
    ensures |s.rows| == 4
    ensures CountPresent(s.rows) ==
      (if a == Present then 1 else 0) + (if b == Present then 1 else 0)
      + (if c == Present then 1 else 0) + (if d == Present then 1 else 0)
  {
    var s0 := Init(None);
    var s1 := SaveAttendance(s0, "01-01-2026", "Thursday", a, false);
    var s2 := SaveAttendance(s1, "02-01-2026", "Friday", b, false);
    var s3 := SaveAttendance(s2, "03-01-2026", "Saturday", c, false);
    var s4 := SaveAttendance(s3, "05-01-2026", "Monday", d, false);
    CountPresentAppend(s0.rows, s1.rows[0]);
    assert s1.rows == s0.rows + [s1.rows[0]];
    CountPresentAppend(s1.rows, s2.rows[1]);
    assert s2.rows == s1.rows + [s2.rows[1]];
    CountPresentAppend(s2.rows, s3.rows[2]);
    assert s3.rows == s2.rows + [s3.rows[2]];
    CountPresentAppend(s3.rows, s4.rows[3]);
    assert s4.rows == s3.rows + [s4.rows[3]];
    s4
  }

  /** Three Present days and one Absent day give 75 percent. */
  lemma ThreeOfFour()
    ensures Attendance(FourDays("Present", "Present", "Present", "Absent")) == 75.0
  {
    PercentBounds(3.0, 4.0);
  }

  /** Three Absent days and one Present day give 25 percent. */
  lemma OneOfFour()
    ensures Attendance(FourDays("Absent", "Absent", "Absent", "Present")) == 25.0
  {
    PercentBounds(1.0, 4.0);
  }

  /** A Sunday that is also a holiday and a vacation day is reported as
      Sunday: the weekday check comes first. */
  lemma SundayWinsOverHoliday()
    ensures var today := Today("14-06-2026", Sunday, "Sunday");
            var config := Config({"14-06-2026"}, ["14-06-2026"]);
            Mark(Init(None), today, "Present", config).reply == Exempted(NoSchoolSunday)
  {
  }

  /** On an existing file whose sheet holds no row, a Present mark for a
      working day lands in row 1: the percentage stays 0 and the date is not
      seen as marked. */
  lemma BlankSheetHidesFirstRecord()
    ensures var blank := Sheet(SheetTitle, [], []);
            var today := Today("01-01-2026", 3, "Thursday");
            var r := Mark(blank, today, "Present", Config({}, []));
            r.reply.Marked? && Attendance(r.sheet) == 0.0 && !AlreadyMarked(r.sheet.rows, "01-01-2026")
  {
  }
}

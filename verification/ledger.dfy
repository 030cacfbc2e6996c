/** The attendance workbook of main.py, held in memory.

    The workbook has one sheet. Row 1 is the header; every later row is one
    attendance record. A workbook that exists but whose sheet holds no row at
    all is represented too: its header is empty and it has no data rows.
    Every operation on it in the program loads the whole file, changes it
    and saves the whole file again, so here each operation is a pure
    function from the sheet before to the sheet after. */
module Ledger {
  import opened Basics

  /** Background fill of a cell, as far as the program ever sets one. */
  datatype Fill = NoFill | Green | Red | Yellow

  /** One data row: the four cells Date, Day, Status and Synced, as the strings
      the program writes, plus the fills of the Status and Synced cells (the
      only two cells whose fill the program touches). */
  datatype Row = Row(date: string, day: string, status: string, synced: string,
                     statusFill: Fill, syncedFill: Fill)

  /** The sheet: its title, the cells of row 1 (no cells when row 1 does not
      exist) and the data rows below it. */
  datatype Sheet = Sheet(title: string, header: seq<string>, rows: seq<Row>)

  /** The sheet holds no row at all, not even row 1. The program never
      writes such a sheet, but it accepts one when the file already exists. */
  predicate Blank(s: Sheet)
  {
    |s.header| == 0 && |s.rows| == 0
  }

  const SheetTitle: string := "Attendance"
  const HeaderRow: seq<string> := ["Date", "Day", "Status", "Synced"]
  const Present: string := "Present"

  /** Python's str() of a boolean, which is what the Synced cell holds. */
  function BoolText(b: bool): (t: string)
    ensures t == "True" || t == "False"
    ensures b <==> t == "True"
  {
    if b then "True" else "False"
  }

  /** init_excel: a missing workbook is created with the header row only; an
      existing one is left exactly as it is. */
  function Init(existing: Option<Sheet>): (s: Sheet)
    ensures existing.Some? ==> s == existing.value
    ensures existing.None? ==> s.title == SheetTitle && s.header == HeaderRow && |s.rows| == 0
    ensures existing.None? ==> !Blank(s)
  {
    match existing
    case Some(sheet) => sheet
    case None => Sheet(SheetTitle, HeaderRow, [])
  }

  /** Calling init_excel on every start-up is harmless: once the file exists a
      second call changes nothing. */
  lemma InitIdempotent(existing: Option<Sheet>)
    ensures Init(Some(Init(existing))) == Init(existing)
  {
  }

  /** already_marked: scans the data rows (never the header) from the top and
      reports whether one of them holds exactly the given date string. */
  function AlreadyMarked(rows: seq<Row>, date: string): (found: bool)
    ensures found <==> exists i :: 0 <= i < |rows| && rows[i].date == date
  {
    if |rows| == 0 then false
    else if rows[0].date == date then true
    else
      var rest := AlreadyMarked(rows[1..], date);
      assert rest ==> exists i :: 0 < i < |rows| && rows[i].date == date by {
        if rest {
          var k :| 0 <= k < |rows[1..]| && rows[1..][k].date == date;
          assert rows[k + 1].date == date;
        }
      }
      rest
  }

  /** The row save_attendance appends: fills follow the status and the flag. */
  function NewRow(date: string, day: string, status: string, synced: bool): (r: Row)
    ensures r.date == date && r.day == day && r.status == status
    ensures r.synced == BoolText(synced)
    ensures r.statusFill == Green <==> status == Present
    ensures r.statusFill == Red <==> status != Present
    ensures r.syncedFill == Yellow <==> !synced
    ensures synced ==> r.syncedFill == NoFill
  {
    Row(date, day, status, BoolText(synced),
        if status == Present then Green else Red,
        if synced then NoFill else Yellow)
  }

  /** save_attendance: appends one row below the last row and touches nothing
      else. It does not look for an existing row with the same date. On a
      blank sheet the append writes row 1, the header slot, which every
      reader of the ledger skips: the record then counts as no data row. */
  function SaveAttendance(s: Sheet, date: string, day: string, status: string, synced: bool): (t: Sheet)
    ensures t.title == s.title
    ensures Blank(s) ==> t.header == [date, day, status, BoolText(synced)] && |t.rows| == 0
    ensures !Blank(s) ==>
      && t.header == s.header
      && |t.rows| == |s.rows| + 1
      && t.rows[..|s.rows|] == s.rows
      && t.rows[|s.rows|] == NewRow(date, day, status, synced)
    ensures !Blank(t)
  {
    if Blank(s) then s.(header := [date, day, status, BoolText(synced)])
    else s.(rows := s.rows + [NewRow(date, day, status, synced)])
  }

  /** mark_all_synced: every data row gets Synced = "True" and loses the fill
      of its Synced cell. */
  function MarkAllSynced(s: Sheet): (t: Sheet)
    ensures t.title == s.title && t.header == s.header
    ensures |t.rows| == |s.rows|
    ensures forall i :: 0 <= i < |t.rows| ==>
      && t.rows[i].synced == "True" && t.rows[i].syncedFill == NoFill
      && t.rows[i].date == s.rows[i].date && t.rows[i].day == s.rows[i].day
      && t.rows[i].status == s.rows[i].status && t.rows[i].statusFill == s.rows[i].statusFill
  {
    s.(rows := seq(|s.rows|, i requires 0 <= i < |s.rows| =>
                     s.rows[i].(synced := "True", syncedFill := NoFill)))
  }

  /** Every data row reads as synced and carries no pending-sync highlight. */
  predicate AllSynced(s: Sheet)
  {
    forall i :: 0 <= i < |s.rows| ==> s.rows[i].synced == "True" && s.rows[i].syncedFill == NoFill
  }

  /** Two sheets hold the same records when they differ at most in the Synced
      column: same title, header, row count, and per row the same date, day,
      status and status fill. */
  predicate SameRecords(s: Sheet, t: Sheet)
  {
    && s.title == t.title && s.header == t.header && |s.rows| == |t.rows|
    && forall i :: 0 <= i < |s.rows| ==>
         && s.rows[i].date == t.rows[i].date && s.rows[i].day == t.rows[i].day
         && s.rows[i].status == t.rows[i].status && s.rows[i].statusFill == t.rows[i].statusFill
  }

  /** A sheet already fully synced is a fixed point of mark_all_synced; in
      particular applying it twice is the same as applying it once. */
  lemma MarkAllSyncedFixedPoint(s: Sheet)
    ensures AllSynced(s) <==> MarkAllSynced(s) == s
    ensures MarkAllSynced(MarkAllSynced(s)) == MarkAllSynced(s)
  {
    var t := MarkAllSynced(s);
    if AllSynced(s) {
      assert forall i :: 0 <= i < |s.rows| ==> t.rows[i] == s.rows[i];
    }
    assert forall i :: 0 <= i < |t.rows| ==> MarkAllSynced(t).rows[i] == t.rows[i];
  }

  /** mark_all_synced is exactly the update that makes every data row synced while
      keeping every record: any sheet with those two properties is its result. */
  lemma MarkAllSyncedCharacterised(s: Sheet, t: Sheet)
    ensures (AllSynced(t) && SameRecords(s, t)) <==> t == MarkAllSynced(s)
  {
    if AllSynced(t) && SameRecords(s, t) {
      assert forall i :: 0 <= i < |t.rows| ==> t.rows[i] == MarkAllSynced(s).rows[i];
    }
  }

  /** The Status column, top to bottom. */
  function Statuses(rows: seq<Row>): (col: seq<string>)
    ensures |col| == |rows|
    ensures forall i :: 0 <= i < |rows| ==> col[i] == rows[i].status
  {
    seq(|rows|, i requires 0 <= i < |rows| => rows[i].status)
  }

  /** The counting loop of calculate_attendance: how many data rows have a
      status of exactly "Present", which is the multiplicity of "Present" in
      the Status column. */
  function CountPresent(rows: seq<Row>): (n: nat)
    ensures n == multiset(Statuses(rows))[Present]
    ensures n <= |rows|
  {
    if |rows| == 0 then 0
    else
      assert Statuses(rows) == [rows[0].status] + Statuses(rows[1..]);
      (if rows[0].status == Present then 1 else 0) + CountPresent(rows[1..])
  }

  /** calculate_attendance: the share of Present rows as a percentage, or 0
      when there are no data rows. Computed exactly, without floating point. */
  function Attendance(s: Sheet): (pct: real)
    ensures |s.rows| == 0 ==> pct == 0.0
    ensures 0.0 <= pct <= 100.0
    ensures |s.rows| > 0 ==>
      pct * (|s.rows| as real) == 100.0 * (multiset(Statuses(s.rows))[Present] as real)
  {
    var total := |s.rows|;
    var present := CountPresent(s.rows);
    if total == 0 then 0.0
    else
      PercentBounds(present as real, total as real);
      (present as real / total as real) * 100.0
  }

  /** Real-number facts behind the percentage: a share of at most the whole
      lies in [0, 100], scales back to the part, and is 100 exactly for the
      whole and 0 exactly for nothing. */
  lemma PercentBounds(p: real, n: real)
    requires 0.0 <= p <= n && n > 0.0
    ensures 0.0 <= (p / n) * 100.0 <= 100.0
    ensures (p / n) * 100.0 * n == 100.0 * p
    ensures (p / n) * 100.0 == 100.0 <==> p == n
    ensures (p / n) * 100.0 == 0.0 <==> p == 0.0
  {
    ShareAtMostOne(p, n);
    assert (p / n) * n == p;
  }

  /** A part of at most the whole is at most one whole share. */
  lemma ShareAtMostOne(p: real, n: real)
    requires 0.0 <= p <= n && n > 0.0
    ensures p / n <= 1.0
  {
    assert n / n == 1.0;
    assert p / n <= n / n;
  }

  /** Appending a row adds one to the Present count exactly when its status is
      "Present". */
  lemma CountPresentAppend(rows: seq<Row>, r: Row)
    ensures CountPresent(rows + [r]) == CountPresent(rows) + (if r.status == Present then 1 else 0)
  {
    assert Statuses(rows + [r]) == Statuses(rows) + [r.status];
  }

  /** The Present count is the number of rows exactly when every row is
      Present, and 0 exactly when none is. */
  lemma {:induction false} CountPresentExtremes(rows: seq<Row>)
    ensures CountPresent(rows) == |rows| <==> forall i :: 0 <= i < |rows| ==> rows[i].status == Present
    ensures CountPresent(rows) == 0 <==> forall i :: 0 <= i < |rows| ==> rows[i].status != Present
  {
    if |rows| > 0 {
      var tail := rows[1..];
      CountPresentExtremes(tail);
      assert CountPresent(rows) == (if rows[0].status == Present then 1 else 0) + CountPresent(tail);
      assert forall i :: 1 <= i < |rows| ==> rows[i] == tail[i - 1];
      assert (forall i :: 0 <= i < |rows| ==> rows[i].status == Present) <==>
             rows[0].status == Present && forall i :: 0 <= i < |tail| ==> tail[i].status == Present;
      assert (forall i :: 0 <= i < |rows| ==> rows[i].status != Present) <==>
             rows[0].status != Present && forall i :: 0 <= i < |tail| ==> tail[i].status != Present;
    }
  }

  /** The percentage is 100 exactly when there is at least one data row and
      all of them are Present, and 0 exactly when no row is Present. */
  lemma AttendanceExtremes(s: Sheet)
    ensures Attendance(s) == 100.0 <==> |s.rows| > 0 && forall i :: 0 <= i < |s.rows| ==> s.rows[i].status == Present
    ensures Attendance(s) == 0.0 <==> forall i :: 0 <= i < |s.rows| ==> s.rows[i].status != Present
  {
    CountPresentExtremes(s.rows);
    if |s.rows| > 0 {
      PercentBounds(CountPresent(s.rows) as real, |s.rows| as real);
    }
  }

  /** No two data rows share a date. */
  predicate UniqueDates(rows: seq<Row>)
  {
    forall i, j :: 0 <= i < j < |rows| ==> rows[i].date != rows[j].date
  }

  /** The fills of a row agree with its values: Status green for "Present" and
      red otherwise; Synced either "False" with the yellow highlight or "True"
      without a fill. */
  predicate WellFilled(r: Row)
  {
    && r.statusFill == (if r.status == Present then Green else Red)
    && ((r.synced == "False" && r.syncedFill == Yellow) || (r.synced == "True" && r.syncedFill == NoFill))
  }

  predicate Consistent(s: Sheet)
  {
    forall i :: 0 <= i < |s.rows| ==> WellFilled(s.rows[i])
  }

  /** Appending a row whose date is not yet present keeps dates unique; an
      append is also the only way a date becomes marked. */
  lemma SaveKeepsDatesUnique(s: Sheet, date: string, day: string, status: string, synced: bool)
    requires UniqueDates(s.rows)
    requires !AlreadyMarked(s.rows, date)
    ensures UniqueDates(SaveAttendance(s, date, day, status, synced).rows)
  {
  }

  /** save_attendance by itself does not prevent duplicates: saving the same
      date twice leaves two data rows for it, unless the sheet was blank, in
      which case the first record went into row 1 and only one data row holds
      the date. */
  lemma SaveTwiceDuplicates(s: Sheet, date: string, day: string, status1: string, status2: string)
    ensures UniqueDates(SaveAttendance(SaveAttendance(s, date, day, status1, false), date, day, status2, false).rows)
            <==> Blank(s)
  {
    var t := SaveAttendance(SaveAttendance(s, date, day, status1, false), date, day, status2, false);
    if !Blank(s) {
      assert t.rows[|s.rows|].date == date == t.rows[|s.rows| + 1].date;
    }
  }

  /** Appending keeps the fills of every data row in agreement with its values. */
  lemma SaveKeepsConsistent(s: Sheet, date: string, day: string, status: string, synced: bool)
    requires Consistent(s)
    ensures Consistent(SaveAttendance(s, date, day, status, synced))
  {
  }

  /** The bulk sync update keeps the fills of every data row in agreement with
      its values. */
  lemma MarkAllSyncedKeepsConsistent(s: Sheet)
    requires Consistent(s)
    ensures Consistent(MarkAllSynced(s))
  {
  }
}

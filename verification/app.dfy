/** The ledger-facing logic of AttendanceApp in main.py: the four buttons
    (mark present, mark absent, sync, show percentage) as functions from the
    workbook before to the workbook after, with the reply the user sees.

    The window, pop-ups and desktop notification are not modelled. The
    Google Drive upload is reduced to its outcome, which arrives as a free
    parameter; a lemma that does not name an outcome holds for both. */
module AttendanceApp {
  import opened Basics
  import opened Ledger
  import opened Calendar

  /** What mark reports: a calendar exemption, a day already recorded, or
      the day and status just saved. */
  datatype MarkReply = Exempted(reason: Exemption) | AlreadyMarkedToday | Marked(day: string, status: string)

  datatype MarkResult = MarkResult(reply: MarkReply, sheet: Sheet)

  /** AttendanceApp.mark: the calendar checks first, then the already-marked
      check, and only then one unsynced row is appended. */
  function Mark(s: Sheet, today: Today, status: string, config: Config): (r: MarkResult)
    ensures r.reply.Exempted? <==> Exempt(today, config).Some?
    ensures r.reply.Exempted? ==> Some(r.reply.reason) == Exempt(today, config)
    ensures r.reply == AlreadyMarkedToday <==>
      Exempt(today, config) == None && exists i :: 0 <= i < |s.rows| && s.rows[i].date == today.date
    ensures r.reply.Marked? <==>
      Exempt(today, config) == None && forall i :: 0 <= i < |s.rows| ==> s.rows[i].date != today.date
    ensures !r.reply.Marked? ==> r.sheet == s
    ensures r.reply.Marked? ==>
      && r.reply == Marked(today.dayName, status)
      && r.sheet == SaveAttendance(s, today.date, today.dayName, status, false)
  {
    match Exempt(today, config)
    case Some(reason) => MarkResult(Exempted(reason), s)
    case None =>
      if AlreadyMarked(s.rows, today.date) then MarkResult(AlreadyMarkedToday, s)
      else MarkResult(Marked(today.dayName, status),
                      SaveAttendance(s, today.date, today.dayName, status, false))
  }

  /** mark never creates a second data row (row 2 onward) for a date: a
      ledger whose data rows have distinct dates keeps them distinct. A record
      sitting in row 1 is not among the data rows and is not checked. */
  lemma MarkKeepsDatesUnique(s: Sheet, today: Today, status: string, config: Config)
    requires UniqueDates(s.rows)
    ensures UniqueDates(Mark(s, today, status, config).sheet.rows)
  {
    var r := Mark(s, today, status, config);
    if r.reply.Marked? {
      SaveKeepsDatesUnique(s, today.date, today.dayName, status, false);
    }
  }

  /** Pressing a mark button twice on the same day records at most one row:
      the second press appends only when the first one wrote into row 1 of a
      blank sheet, where the already-marked scan does not look. */
  lemma MarkTwiceSameDay(s: Sheet, today: Today, status1: string, status2: string, config: Config)
    ensures var first := Mark(s, today, status1, config);
            var second := Mark(first.sheet, today, status2, config);
            second.reply.Marked? <==> first.reply.Marked? && Blank(s)
    ensures var first := Mark(s, today, status1, config);
            !Blank(s) ==> Mark(first.sheet, today, status2, config).sheet == first.sheet
  {
    var first := Mark(s, today, status1, config);
    if first.reply.Marked? && !Blank(s) {
      assert first.sheet.rows[|s.rows|].date == today.date;
    }
  }

  /** The outcome of the Drive upload, which the model does not compute. */
  datatype Upload = Uploaded | UploadFailed(reason: string)

  /** What sync_drive reports. */
  datatype SyncReply = BackupSuccessful | DriveError(reason: string)

  /** The reply, the local workbook afterwards, and the workbook content that
      reached the remote folder, if any is known to have. */
  datatype SyncResult = SyncResult(reply: SyncReply, sheet: Sheet, backup: Option<Sheet>)

  /** sync_drive with upload_to_drive: the file is uploaded first, and only
      once that has completed are the local data rows (row 2 onward) flagged
      as synced; row 1 is never touched. A failure
      is caught and reported; the local workbook keeps its flags. */
  function SyncDrive(s: Sheet, upload: Upload): (r: SyncResult)
    ensures upload.UploadFailed? ==> r.reply == DriveError(upload.reason) && r.sheet == s && r.backup == None
    ensures upload.Uploaded? ==>
      && r.reply == BackupSuccessful
      && AllSynced(r.sheet) && SameRecords(s, r.sheet)
      && r.backup == Some(s)
  {
    match upload
    case Uploaded => SyncResult(BackupSuccessful, MarkAllSynced(s), Some(s))
    case UploadFailed(reason) => SyncResult(DriveError(reason), s, None)
  }

  /** Because the upload precedes mark_all_synced, the remote copy is the
      workbook as it was before flagging: it still shows every row that was
      pending as "False", while the local copy shows it as "True". */
  lemma BackupLagsSyncFlags(s: Sheet, i: int)
    requires 0 <= i < |s.rows| && s.rows[i].synced == "False"
    ensures var r := SyncDrive(s, Uploaded);
            r.backup.Some? && r.backup.value.rows[i].synced == "False" && r.sheet.rows[i].synced == "True"
  {
  }

  /** A sync keeps dates unique: it never adds, removes or re-dates a row. */
  lemma SyncKeepsDatesUnique(s: Sheet, upload: Upload)
    requires UniqueDates(s.rows)
    ensures UniqueDates(SyncDrive(s, upload).sheet.rows)
  {
    var t := SyncDrive(s, upload).sheet;
    assert forall i :: 0 <= i < |t.rows| ==> t.rows[i].date == s.rows[i].date;
  }

  /** One button press. The percentage button only reads the workbook. */
  datatype Action = Press(status: string, today: Today) | SyncPress(upload: Upload) | PercentPress

  /** The workbook after one button press. */
  function Step(s: Sheet, a: Action, config: Config): (t: Sheet)
    ensures a.PercentPress? ==> t == s
    ensures !a.SyncPress? ==> |s.rows| <= |t.rows| <= |s.rows| + 1 && t.rows[..|s.rows|] == s.rows
    ensures a.SyncPress? ==> |t.rows| == |s.rows|
  {
    match a
    case Press(status, today) => Mark(s, today, status, config).sheet
    case SyncPress(upload) => SyncDrive(s, upload).sheet
    case PercentPress => s
  }

  /** The workbook after a sequence of button presses. */
  function Run(s: Sheet, actions: seq<Action>, config: Config): Sheet
    decreases |actions|
  {
    if |actions| == 0 then s else Run(Step(s, actions[0], config), actions[1..], config)
  }

  /** Launching the app runs init_excel, then the user presses buttons. */
  function Session(existing: Option<Sheet>, actions: seq<Action>, config: Config): Sheet
  {
    Run(Init(existing), actions, config)
  }

  /** No sequence of button presses creates two data rows (row 2 onward) for
      the same date. A record in row 1 of a once-blank sheet is not checked
      and may repeat a data row's date. */
  lemma {:induction false} RunKeepsDatesUnique(s: Sheet, actions: seq<Action>, config: Config)
    requires UniqueDates(s.rows)
    ensures UniqueDates(Run(s, actions, config).rows)
    decreases |actions|
  {
    if |actions| > 0 {
      match actions[0] {
        case Press(status, today) => MarkKeepsDatesUnique(s, today, status, config);
        case SyncPress(upload) => SyncKeepsDatesUnique(s, upload);
        case PercentPress =>
      }
      RunKeepsDatesUnique(Step(s, actions[0], config), actions[1..], config);
    }
  }

  /** No button press makes a sheet that is not blank blank again. */
  lemma {:induction false} RunKeepsNotBlank(s: Sheet, actions: seq<Action>, config: Config)
    requires !Blank(s)
    ensures !Blank(Run(s, actions, config))
    decreases |actions|
  {
    if |actions| > 0 {
      var s' := Step(s, actions[0], config);
      assert s'.header == s.header;
      RunKeepsNotBlank(s', actions[1..], config);
    }
  }

  /** A session that starts without a workbook file keeps its header row and
      never holds two rows for one date. */
  lemma SessionDatesUnique(actions: seq<Action>, config: Config)
    ensures UniqueDates(Session(None, actions, config).rows)
    ensures !Blank(Session(None, actions, config))
  {
    RunKeepsDatesUnique(Init(None), actions, config);
    RunKeepsNotBlank(Init(None), actions, config);
  }

  /** No sequence of button presses breaks the agreement between cell values
      and cell fills. */
  lemma {:induction false} RunKeepsConsistent(s: Sheet, actions: seq<Action>, config: Config)
    requires Consistent(s)
    ensures Consistent(Run(s, actions, config))
    decreases |actions|
  {
    if |actions| > 0 {
      match actions[0] {
        case Press(status, today) => SaveKeepsConsistent(s, today.date, today.dayName, status, false);
        case SyncPress(upload) => MarkAllSyncedKeepsConsistent(s);
        case PercentPress =>
      }
      RunKeepsConsistent(Step(s, actions[0], config), actions[1..], config);
    }
  }

  /** Sync flags change only through a successful upload: while no upload
      succeeds, existing rows stay exactly as they were and every row added
      is pending ("False"). */
  lemma {:induction false} FlagsChangeOnlyAfterUpload(s: Sheet, actions: seq<Action>, config: Config)
    requires forall k :: 0 <= k < |actions| ==> actions[k] != SyncPress(Uploaded)
    ensures var t := Run(s, actions, config);
            && |s.rows| <= |t.rows| && t.rows[..|s.rows|] == s.rows
            && forall i :: |s.rows| <= i < |t.rows| ==> t.rows[i].synced == "False"
    decreases |actions|
  {
    if |actions| > 0 {
      var s' := Step(s, actions[0], config);
      assert forall i :: |s.rows| <= i < |s'.rows| ==> s'.rows[i].synced == "False";
      FlagsChangeOnlyAfterUpload(s', actions[1..], config);
      var t := Run(s', actions[1..], config);
      assert t.rows[..|s.rows|] == t.rows[..|s'.rows|][..|s.rows|];
    }
  }
}

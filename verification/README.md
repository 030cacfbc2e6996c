# Attendance ledger — a Dafny model

This project models the logic of a small desktop attendance tracker, a Python
application with a single source file, `main.py`. Each school day the user
presses "Mark Present" or "Mark Absent". The app keeps one row per day in a
spreadsheet: date, day name, status and a "Synced" flag. Cell colours mark
presence (green), absence (red) and rows not yet backed up (yellow). A "Sync"
button uploads the workbook to a Drive folder and then flags every data row
(row 2 onward) as synced. A "Show Attendance %" button reports the share of Present days.

The model keeps the workbook in memory as a `Sheet`: a title, a header row and
a sequence of `Row`s. Each operation of the program is a pure function from
the sheet before to the sheet after. The modules are:

- `Basics`: an `Option` type. It stands for "the workbook file may not
  exist" and "no backup is known to have been uploaded".
- `Ledger`: the workbook operations `init_excel`, `already_marked`,
  `save_attendance`, `mark_all_synced` and `calculate_attendance`. It also
  holds the invariants those operations keep: one data row per date, and fills
  that agree with cell values.
- `Calendar`: the exemption checks of `AttendanceApp.mark`, in this order:
  Sunday, then public holiday, then vacation list.
- `AttendanceApp`: `mark`, and `sync_drive` with its upload gating. It also
  defines a button-press session, with lemmas that hold across any sequence
  of presses.
- `Scenarios`: concrete walks through the ledger.

Inputs that the program takes from its environment become parameters:

- **Today** is a date string in `%d-%m-%Y` form, a weekday index (Monday 0 to
  Sunday 6) and a `%A` day name.
- **The holiday calendar** is the set of formatted dates it contains.
- **The vacation list** is a sequence of date strings.
- **The Drive upload** is an outcome parameter: `Uploaded` or
  `UploadFailed(reason)`. The outcome is a free parameter. A lemma that does
  not name an outcome holds for both.

Some behaviours of the program that the model keeps:

- The program does not restrict the status. Any string other than "Present"
  is counted as not present and gets the red fill.
- `already_marked` compares the first cell with `==`. It does no date parsing
  and no validation.
- An existing file whose sheet holds no row at all is accepted as it is. The
  first record saved into it lands in row 1, where the header belongs. Every
  reader starts at row 2, so that record is never counted or found. The model
  represents such a sheet as one with an empty header and no data rows
  (`Ledger.Blank`). A record in row 1 is neither checked for duplicates nor
  flagged by a sync, so every uniqueness and sync statement below is about
  data rows (row 2 onward) only.

## Model

| member | source | states |
|---|---|---|
| Ledger.Init | main.py:35-41 | a missing workbook becomes sheet "Attendance" with header Date/Day/Status/Synced and no data rows; an existing workbook is returned unchanged |
| Ledger.InitIdempotent | main.py:35-41 | running the start-up initialisation on its own result changes nothing |
| Ledger.AlreadyMarked | main.py:44-50 | true exactly when some data row (the header is never scanned) has a first cell equal to the date string |
| Ledger.NewRow | main.py:56-65 | the appended row holds date, day, status and str(synced); Status is green iff the status is exactly "Present" and red otherwise; Synced is yellow iff the flag is false |
| Ledger.SaveAttendance | main.py:53-67 | on a sheet that is not blank, exactly one data row is added at the bottom, every earlier row plus the title and header are unchanged, and the new row is the one described above; on a blank sheet the record's cells become row 1 and there are still no data rows; the result is never blank |
| Ledger.MarkAllSynced | main.py:70-76 | same row count; every data row (row 2 onward) reads "True" in Synced with no fill there; date, day, status and status fill of every row unchanged |
| Ledger.MarkAllSyncedFixedPoint | main.py:70-76 | a sheet is left unchanged by the bulk update iff it is already fully synced; applying the update twice equals applying it once |
| Ledger.MarkAllSyncedCharacterised | main.py:70-76 | a sheet is the result of the bulk update iff it is fully synced and holds the same records as the input |
| Ledger.CountPresent | main.py:82-87 | the counting loop's Present tally equals the multiplicity of "Present" in the Status column and never exceeds the number of rows |
| Ledger.Attendance | main.py:79-89 | 0 on a sheet with no data rows; otherwise the percentage times the row count is 100 times the number of Present rows; always within [0, 100] |
| Ledger.PercentBounds | main.py:89 | present/total*100 lies in [0, 100], scales back to 100*present, and is 100 iff present = total and 0 iff present = 0 |
| Ledger.CountPresentAppend | main.py:84-87 | appending a row raises the Present tally by one iff its status is "Present" |
| Ledger.CountPresentExtremes | main.py:84-87 | the tally equals the row count iff every row is Present, and is 0 iff no row is |
| Ledger.AttendanceExtremes | main.py:79-89 | the percentage is 100 iff there is a row and all rows are Present; it is 0 iff no row is Present |
| Ledger.SaveKeepsDatesUnique | main.py:53-56 | appending a date not yet marked to a ledger with distinct dates keeps dates distinct |
| Ledger.SaveTwiceDuplicates | main.py:53-56 | appending the same date twice leaves two data rows with that date, because the append alone does not check, except on a blank sheet, where the first record went into row 1 |
| Ledger.SaveKeepsConsistent | main.py:53-67 | appending keeps every data row's fills in agreement with its status and Synced value |
| Ledger.MarkAllSyncedKeepsConsistent | main.py:70-76 | the bulk sync update keeps every data row's fills in agreement with its status and Synced value |
| Calendar.Exempt | main.py:156-166 | no exemption iff the day is not Sunday, not a holiday and not a vacation date; Sunday wins; holiday only when not Sunday; vacation only when neither |
| Calendar.ExemptWhenAnyReason | main.py:156-166 | a day is exempt iff at least one of the three reasons applies |
| Calendar.ExemptMonotone | main.py:156-166 | adding holidays or vacation dates never makes an exempt day require attendance |
| AttendanceApp.Mark | main.py:151-174 | exempt iff a calendar reason applies, with that reason; "already marked" iff not exempt and a row has today's date; otherwise the record (today's date, day name, status, unsynced) is saved exactly as save_attendance saves it; on any rejection the sheet is unchanged |
| AttendanceApp.MarkKeepsDatesUnique | main.py:168-172 | a ledger whose data rows (row 2 onward) have distinct dates keeps them distinct after mark; row 1 is not checked |
| AttendanceApp.MarkTwiceSameDay | main.py:168-172 | a second mark on the same day appends iff the first one appended into a blank sheet; otherwise the sheet stays as the first press left it, whatever statuses were pressed |
| AttendanceApp.SyncDrive | main.py:176-181 | sync_drive with upload_to_drive: on a failed upload the error is caught and reported, the sheet is unchanged and no backup is recorded; on success every data row (row 2 onward) is synced while row 1 is left as it was, the records are unchanged and the uploaded copy is the pre-sync sheet |
| AttendanceApp.BackupLagsSyncFlags | main.py:107-115 | a row pending before a successful sync reads "False" in the uploaded copy but "True" locally |
| AttendanceApp.SyncKeepsDatesUnique | main.py:176-181 | a sync, whatever its outcome, keeps the dates of a ledger distinct |
| AttendanceApp.Step | main.py:137-140 | the percentage button leaves the sheet unchanged; a mark button keeps every existing row and adds at most one; sync keeps the row count |
| AttendanceApp.RunKeepsDatesUnique | main.py:151-181 | any sequence of button presses keeps the data rows (row 2 onward) of a ledger free of duplicate dates if they were; row 1 is not checked |
| AttendanceApp.RunKeepsNotBlank | main.py:151-181 | no sequence of button presses turns a sheet that is not blank into a blank one |
| AttendanceApp.SessionDatesUnique | main.py:118-181 | a session that starts without a workbook file never becomes blank and never holds two data rows for the same date |
| AttendanceApp.RunKeepsConsistent | main.py:53-76 | any sequence of button presses keeps every data row's fills in agreement with its values |
| AttendanceApp.FlagsChangeOnlyAfterUpload | main.py:176-181 | while no upload succeeds, existing rows stay exactly as they were and every added row reads "False" in Synced |
| Scenarios.FirstDayRecorded | main.py:35-56 | on a fresh workbook with one Present row for 01-01-2026, that date is marked and 02-01-2026 is not |
| Scenarios.ThreeOfFour | main.py:79-89 | three Present days and one Absent day give exactly 75 |
| Scenarios.OneOfFour | main.py:79-89 | three Absent days and one Present day give exactly 25 |
| Scenarios.SundayWinsOverHoliday | main.py:156-166 | a Sunday that is also a holiday and a vacation day is rejected as Sunday |
| Scenarios.BlankSheetHidesFirstRecord | main.py:53-67 | on a blank sheet a Present mark is accepted, yet the percentage stays 0 and the date is not seen as marked |

## Left out

- The Kivy window, buttons, pop-up messages and their texts (main.py:118-149, 187-190) are presentation only. The replies are modelled as datatypes, not as strings.
- The desktop notification after a successful mark (main.py:173) is a fire-and-forget side effect.
- Loading and saving the workbook file, and the file-existence check, are not modelled. The workbook is an in-memory value, and "file exists" is an `Option`. Storage failures (permissions, disk errors) are not modelled. That includes a failure inside `mark_all_synced` after a successful upload.
- Google Drive authentication, folder listing, title matching and the create-or-replace upload (main.py:92-113) call a network library that is not part of this model. Only their success or failure outcome is modelled.
- The `holidays.India()` calendar is a foreign library. It is passed in as a set of formatted dates. This is equivalent because `%d-%m-%Y` formatting gives each date its own string.
- `datetime.date.today()` and `strftime` are not modelled. Each mark press takes today's date string, weekday index and day name as inputs.
- Ledger.Attendance: computes the ratio exactly with `real`, not in IEEE double precision. The `.1f` display rounding (main.py:185) is not modelled.
- Ledger.AlreadyMarked: cells hold strings only. A hand-edited workbook whose Date cell holds a date object or is empty would never match in the program, and the model cannot represent such cells.
- Ledger.SaveAttendance: when a record lands in row 1 of a blank sheet, the fills it gets there are not represented, because row 1 holds cell values only.
- The session functions thread one in-memory sheet through every button press. The program reloads and re-saves the file in every operation, and `mark` runs its check and its append as two separate load/save cycles (main.py:168, 172). `AttendanceApp.RunKeepsDatesUnique` and `AttendanceApp.SessionDatesUnique` therefore assume a single writer: no second instance of the app and no hand edit of the file during a session.
- Fills of the Date and Day cells are not modelled, because the program never sets them.

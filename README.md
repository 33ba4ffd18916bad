# ATTENDAI core, modelled in Dafny

ATTENDAI is a classroom attendance system. Teachers register, log in and
register students. Students log in with their roll number and can change their
password. Faces are matched against enrolled embeddings, and attendance is
stored per (student, date, period). This project models the decision and
aggregation logic at the core of the system, and proves what it guarantees:

- **Face matching and the enrollment store** (`face_utils.py`, module
  `FaceUtils`). The matcher scans every sample of every student. It keeps the
  first strictly greatest score, starting from -1.0, and then tests that score
  against the threshold. Class `EncodingsFolder` models the `encodings`
  folder. Its method `LoadAll` keys each loadable `.npy` file by its root name.
  Its method `Append` stacks a new sample onto a student's file.
- **The attendance table** (module `AttendanceTable`). Class `Table` has rows,
  a counter for the next id, and whether UNIQUE(student_id, date, period) is
  in force. It supports insert, update, lookup, delete by id and delete by
  (date, period).
- **Duplicate repair** (`fix_duplicates.py`, module `FixDuplicates`). Each
  duplicate group collapses to its smallest id. The number of removed rows is
  reported. The script looks for a unique index and, when there is none,
  rebuilds the table with the key constraint.
- **The attendance flow test** (`test_attendance_flow.py`, module
  `AttendanceFlow`). This is the test's sequence of steps on one table:
  clear the slot, mark present, retry the same insert, look up the mark, mark
  absent, update to present, check for duplicates, clean up.
- **Accounts** (`app.py`, module `Accounts`). Class `Database` holds the
  `users` and `students` tables. It covers teacher registration, student
  registration by a teacher, password change and the demo setup. The pure
  functions cover the handlers' checks, role-restricted login and home-page
  routing. Password hashing is abstract: `CheckHash(GenerateHash(p, salt), q)`
  holds exactly when `p == q`.
- **Reports**:
  - period-label conversion and the timetable grid (`test_period_matching.py`,
    module `PeriodMatching`);
  - per-class counters (`verify_class_stats.py`, module `ClassStats`);
  - one student's summary (`check_attendance.py`, module `AttendanceSummary`);
  - the grouped student listing with subtotals (`check_students.py`, module
    `StudentListing`).

Shared modules:

- `Wrappers` holds `Option`.
- `OrderedMap` models Python's insertion-ordered `dict` as a sequence of
  pairs with distinct keys. Storing under an existing key replaces its value
  in place.
- `Text` covers `isdigit`, `int()`, `str()`, `split()`, `lower()`, `in` and
  `endswith` on the characters the inputs use.
- `Ratios` holds the printed percentages as exact reals.

Each loop of the source is a method proved against a specification function,
and lemmas state the source's promises about that function.

## Model

| member | source | states |
|---|---|---|
| FaceUtils.ScanIsFirstMaximum | face_utils.py:88-108 | the scan's score is the maximum of -1.0 and every candidate's score; no id is selected exactly when no score exceeds -1.0 (the comparison is strict); the selected candidate is the first one reaching the maximum |
| FaceUtils.MatchSelectsBest | face_utils.py:88-113 | the returned score is at least every enrolled sample's score; an id is returned only when the score reaches the threshold, and that student owns a sample with exactly that score; below the threshold the id is None and the best score is still returned |
| FaceUtils.MatchEmptyDirectory | face_utils.py:88-113 | an empty enrollment dict gives no id and score -1.0, whatever the threshold |
| FaceUtils.ThresholdMonotone | face_utils.py:110-113 | raising the threshold never turns "no match" into a match or changes a match, and it leaves the score unchanged |
| FaceUtils.VectorIsSingleRow | face_utils.py:98-100 | a 1-D enrollment is matched exactly as a one-row 2-D enrollment |
| FaceUtils.CandidatesCover | face_utils.py:95-102 | the nested loop visits exactly the (student, sample) pairs of the enrolled dict |
| FaceUtils.MatchEmbedding | face_utils.py:75-113 | the nested loop with `best_id`/`best_score` returns what `Match` specifies |
| FaceUtils.EnrollmentsUnique | face_utils.py:122-141 | the loaded dict has distinct keys |
| FaceUtils.EnrollmentsKeys | face_utils.py:128-141 | a key is loaded exactly when some file ending in `.npy` with that root holds a 2-D array |
| FaceUtils.EnrollmentsLast | face_utils.py:128-144 | each key holds the array of the last loadable file with that root; files with another extension, unreadable files and 1-D arrays are skipped without affecting the rest |
| FaceUtils.RootOfFileName | face_utils.py:130 | a student's file name ends in `.npy`, and `splitext` gives back the id, except for ids made only of dots |
| FaceUtils.DotNpyKeepsItsName | face_utils.py:130 | `splitext(".npy")[0]` is ".npy": leading dots do not start an extension |
| FaceUtils.RootDeterminesFile | face_utils.py:128-130 | for an id that is not all dots and does not end in ".npy", `id + ".npy"` is the only `.npy` file keyed by that id |
| FaceUtils.Appended | face_utils.py:163-172 | for rows as wide as the old ones: the stored array is 2-D; with no file it holds the new rows; otherwise it holds the old rows followed by the new ones; rows of one width stay of that width |
| FaceUtils.EncodingsFolder.LoadAll | face_utils.py:115-146 | a missing folder is created and yields an empty dict; otherwise the result is `Enrollments` of the listed files, and the folder is unchanged |
| FaceUtils.EncodingsFolder.Append | face_utils.py:148-175 | the folder exists afterwards; the call fails, writing nothing, exactly when the existing file is unreadable or its rows are not as wide as the new ones (`np.vstack` raises); otherwise the student's file is replaced by the appended array and every other file is unchanged |
| FaceUtils.LoadAfterAppend | face_utils.py:128-174 | for an id that is not all dots and does not end in ".npy", loading after storing a 2-D array gives the student exactly that array |
| AttendanceTable.Lookup | test_attendance_flow.py:67-71 | the lookup finds a row exactly when some row has the key, and then it is the first such row |
| AttendanceTable.Without | fix_duplicates.py:39-40 | deleting by id keeps exactly the rows whose id is not deleted |
| AttendanceTable.WithoutSlot | test_attendance_flow.py:34-37 | deleting by (date, period) keeps exactly the rows outside that date and period |
| AttendanceTable.SetStatusKeepsKeys | test_attendance_flow.py:92-96 | the status update changes no id and no key: every key keeps its `COUNT(*)`, and distinct ids and distinct keys stay distinct |
| AttendanceTable.CountKeyOfTwo | fix_duplicates.py:16-20 | a key held by two rows is counted at least twice |
| AttendanceTable.CountKeyMany | fix_duplicates.py:16-20 | a key counted more than once is held by two distinct rows |
| AttendanceTable.NoDuplicatedStudents | test_attendance_flow.py:120-129 | the duplicate query for a slot is empty exactly when no student holds two rows in that slot |
| AttendanceTable.Table.Insert | test_attendance_flow.py:43-63 | an insert succeeds unless the UNIQUE key is in force and the key is present; success appends one row with the next id; failure changes nothing |
| AttendanceTable.Table.Update | test_attendance_flow.py:92-98 | the rows become `SetStatus` of the old rows, and `rowcount` is the number of rows with the key |
| AttendanceTable.Table.DeleteById | fix_duplicates.py:40 | the rows become those of the old rows whose id differs |
| AttendanceTable.Table.DeleteSlot | test_attendance_flow.py:34-38 | exactly the rows of the slot are removed, and `rowcount` counts them |
| AttendanceTable.SubsequenceKeepsDistinct | fix_duplicates.py:39-40 | deleting rows keeps ids and keys distinct |
| AttendanceTable.LookupAfterInsert | test_attendance_flow.py:44-74 | a row inserted under a new key is what the lookup returns |
| AttendanceTable.UpdateChangesOnlyThatRow | test_attendance_flow.py:92-101 | with unique keys, an update changes only that row's status and keeps the keys unique |
| FixDuplicates.IdsWithKey | fix_duplicates.py:17 | `GROUP_CONCAT(id)` of a key: as many ids as the key's count, and exactly the ids of the rows with that key |
| FixDuplicates.IdsWithKeyDistinct | fix_duplicates.py:17-34 | with distinct row ids, a group's id list has no repeats |
| FixDuplicates.KeysInOrder | fix_duplicates.py:19 | `GROUP BY` yields each key of the table exactly once |
| FixDuplicates.GroupsOf | fix_duplicates.py:16-22 | a group is reported exactly for each listed key held more than once; with no key held twice, nothing is reported |
| FixDuplicates.MinOf | fix_duplicates.py:36 | the kept id belongs to the group and is at most every id of the group |
| FixDuplicates.Except | fix_duplicates.py:37 | the delete list holds exactly the group's ids other than the kept one, one fewer id than the group |
| FixDuplicates.DuplicateGroupsFacts | fix_duplicates.py:16-22 | every reported group has more than one id, and they are the ids of its key; every key held more than once is reported, with distinct keys |
| FixDuplicates.DeletedAreNonMinimal | fix_duplicates.py:32-41 | the deleted ids are exactly the ids that are not the smallest of their key |
| FixDuplicates.DeleteAll | fix_duplicates.py:39-40 | deleting a list of present, distinct ids one by one removes exactly those rows |
| FixDuplicates.RemoveDuplicates | fix_duplicates.py:16-44 | the groups are those of the old table; the table becomes `KeepMin` of the old rows; the reported count equals the sum over groups of (size - 1), and also equals the number of rows removed |
| FixDuplicates.KeepMinUnique | fix_duplicates.py:30-43 | after the pass, each (student, date, period) has at most one row |
| FixDuplicates.KeepMinKeepsSmallest | fix_duplicates.py:34-37 | every key keeps a row, and that row has the key's smallest id |
| FixDuplicates.KeepMinUntouched | fix_duplicates.py:16-40 | a row whose key is held once is kept |
| FixDuplicates.NoGroupsWhenDistinct | fix_duplicates.py:99-110 | when every key is held at most once, the duplicate query finds nothing |
| FixDuplicates.KeepMinIdempotent | fix_duplicates.py:30-43 | running the pass on its own output changes nothing |
| FixDuplicates.DetectUnique | fix_duplicates.py:53-62 | `has_unique` holds exactly when some index whose lower-cased name contains "unique" has three columns |
| FixDuplicates.NextAfterCopy | fix_duplicates.py:69-84 | after the copy, AUTOINCREMENT continues above every copied id |
| FixDuplicates.RebuildWithUnique | fix_duplicates.py:64-91 | the rebuild succeeds exactly when the keys are distinct; it then copies every row unchanged and puts the UNIQUE key in force; otherwise nothing changes (with the column types of the model, see Left out) |
| FixDuplicates.FixDuplicates | fix_duplicates.py:14-110 | the rows become `KeepMin` of the old rows; the flag reports a key index exactly when one exists; without one, the UNIQUE key ends up in force; the total is the new row count and no duplicates remain (with the column types of the model, see Left out) |
| AttendanceFlow.WithoutSlotIsFree | test_attendance_flow.py:34-38 | after the clearing delete, the slot holds no row |
| AttendanceFlow.WithoutSlotAppend | test_attendance_flow.py:136-140 | the cleanup removes exactly the rows the test added to the cleared slot |
| AttendanceFlow.LookupAfterPrefix | test_attendance_flow.py:67-74 | a row whose key no earlier row holds is what the lookup returns |
| AttendanceFlow.DuplicatesOfSlotRows | test_attendance_flow.py:120-127 | rows outside the slot do not affect the slot's duplicate query |
| AttendanceFlow.MarkPresentTwice | test_attendance_flow.py:43-63 | the first insert succeeds; the second succeeds exactly when the UNIQUE key is not in force, adding a second row for student 5 |
| AttendanceFlow.ExistingIsFirstPresentRow | test_attendance_flow.py:67-74 | the lookup returns the first present mark of student 5 |
| AttendanceFlow.MarkAbsentThenPresent | test_attendance_flow.py:80-98 | student 6 is inserted as absent, and then exactly one row is updated to present |
| AttendanceFlow.SlotDuplicates | test_attendance_flow.py:120-132 | the duplicate query reports student 5 exactly when the second insert went through |
| AttendanceFlow.CheckAndCleanUp | test_attendance_flow.py:120-140 | the duplicate report is {5} or {} as above, and the cleanup restores the cleared table |
| AttendanceFlow.TestAttendanceFlow | test_attendance_flow.py:27-141 | every step succeeds; the duplicate insert is prevented exactly when the UNIQUE key is in force; the lookup finds a present row of student 5; one row is updated; the duplicate report matches the constraint; afterwards the table is the old table without the test slot |
| Accounts.HashCheck | app.py:103 | `check_password_hash(generate_password_hash(p), q)` holds exactly when `p == q` |
| Accounts.CurrentUser | app.py:21-23 | the session's user is present exactly when some user has the session's id, and it is the first such user |
| Accounts.FindAccount | app.py:100 | an account is found exactly when some user has the username and role, and it is the first such user |
| Accounts.TeacherRegisterCheckOrder | app.py:56-71 | registration passes exactly when both fields are filled, the passwords agree and the username is free; a mismatch is reported only for filled fields, and "taken" only for agreeing passwords |
| Accounts.Login | app.py:91-110 | a login succeeds only for a user with that username, that role and a matching password |
| Accounts.LoginAcceptsExactly | app.py:100-104 | with unique usernames, a POST is accepted exactly when some account has that username, role and password |
| Accounts.LoginLeadsToDashboard | app.py:28-34 | with distinct user ids, whoever has just logged in as a teacher is routed to the teacher dashboard, and whoever has logged in as a student to the student dashboard |
| Accounts.IndexDefaultsToLogin | app.py:28-34 | anonymous visitors and users of any other role go to the login page |
| Accounts.WithHashKeepsAccounts | app.py:281-284 | a password change keeps every user's id, username, role and student link, so unique usernames, distinct ids, every student's login and every account a login can find survive it |
| Accounts.ChangePasswordNeedsCurrent | app.py:256-284 | a password change goes through exactly for a logged-in student who fills the fields, confirms the new password and gives the current one |
| Accounts.RegisteredTeacherCanLogIn | app.py:74-104 | a registered teacher can log in with the username and password it registered |
| Accounts.RegisteredStudentCanLogIn | app.py:173-182 | a registered student can log in with the roll number as both username and password |
| Accounts.ChangedPasswordTakesEffect | app.py:281-284 | after a change, the new password logs the student in and a different old one does not |
| Accounts.Database.TeacherRegister | app.py:48-88 | each failed check leaves the users as they were; success adds exactly one user, with role teacher and the given username and password; usernames stay unique |
| Accounts.RegisterStudentCheckOrder | app.py:136-158 | registration passes exactly for a logged-in teacher's POST with name and roll number filled, when neither a student nor (the corrected check, see Findings) a user already has that roll number; a user of another role is refused, and "roll taken" means a student holds it |
| Accounts.Database.RegisterStudent | app.py:134-189 | the outcome is that of the handler's checks; a failed check writes nothing; success adds one student and one user, with username = roll number, password = roll number, role student and linked to the new student; every student stays linked to a login |
| Accounts.Database.ChangePassword | app.py:256-290 | the hash changes only when every check passes, and then only on the user's own row |
| Accounts.Database.SetupDemo | app.py:294-352 | afterwards teacher1 and student S101 exist; each is added only if absent; when a user named S101 already exists, the student is kept without a login and the call reports failure |
| Accounts.SetupDemoIdempotent | app.py:304-315 | a second demo setup adds nothing |
| Accounts.LinkedAfterRegistration | app.py:161-182 | adding a student and its linked login keeps every student linked |
| Accounts.AsWrittenLinksOnlyFreeNames | app.py:154-182 | as written, a free roll number always adds the student; the login is added, and every student stays linked, only when the roll number is not a username yet; otherwise no user is added and the new student has no login |
| Accounts.AsWrittenStudentWithoutLogin | app.py:154-182 | as written, a free roll number that is already a username leaves the new student without a login |
| PeriodMatching.UnconvertibleLabels | test_period_matching.py:36 | a blank label, and a label whose last word is not a number (such as "Period X"), do not convert: `int()` raises there |
| PeriodMatching.LabelsAgree | test_period_matching.py:36 | a bare number n, and any one-word prefix followed by n (such as "Period n"), both convert to n |
| PeriodMatching.GridDays | test_period_matching.py:38-39 | a day is in the grid exactly when some entry has it |
| PeriodMatching.GridCells | test_period_matching.py:38-40 | a cell is filled exactly when some entry has that day and converted period, and it holds the label of the last such entry |
| PeriodMatching.AllPeriodsAreGridPeriods | test_period_matching.py:29-41 | `all_periods` is exactly the set of periods that have a cell on some day |
| PeriodMatching.BuildTimetable | test_period_matching.py:28-41 | the loop fails exactly when some label does not convert; otherwise it builds `Grid` and `AllPeriods` |
| PeriodMatching.StatusNotTaken | test_period_matching.py:54-62 | a period with no mark looks up as "Not Taken" |
| PeriodMatching.StatusIsLastMark | test_period_matching.py:54-62 | a period with marks looks up as the status of its last mark |
| PeriodMatching.TodayAttendance | test_period_matching.py:54-56 | the loop builds the last-status-per-period map |
| ClassStats.ClassStatsKeys | verify_class_stats.py:22-27 | the report has counters for exactly the classes of the students, a missing or empty class name being counted under "No Class" |
| ClassStats.RecordsOf | verify_class_stats.py:30 | exactly the student's records: a record is selected exactly when it is in the table and carries the student's id |
| ClassStats.PresentAbsentBound | verify_class_stats.py:36-41 | a record counts at most once, as present or as absent |
| ClassStats.CountIgnoresCase | verify_class_stats.py:36-40 | the counts depend on the statuses only through their lower-cased form |
| ClassStats.ClassStatsConserve | verify_class_stats.py:20-41 | the classes' counters add up to the contributions of all students, and in each class present + absent <= total_records |
| ClassStats.StudentsConserved | verify_class_stats.py:22-27 | the per-class student counts add up to the number of students |
| ClassStats.RecordsConserved | verify_class_stats.py:29-33 | the per-class record counts add up to the records of known students; a record matching no student is not counted |
| ClassStats.ComputeClassStats | verify_class_stats.py:20-41 | the loop builds `ClassStatsOf` of the students, with distinct classes, each consistent |
| ClassStats.Percentage | verify_class_stats.py:49 | for a class with records the percentage is present * 100 / total_records, at most 100; for a class without records it is 0 |
| Ratios.Percent | verify_class_stats.py:49 | the result is exactly part * 100 / whole (`r * whole == part * 100`); it lies between 0 and 100 when the part is at most the whole, and is 100 when they are equal |
| AttendanceSummary.WithStatus | check_attendance.py:34-35 | the selected records are exactly those whose status equals the given one, letter case included |
| AttendanceSummary.PresentAbsentBound | check_attendance.py:34-38 | present records + absent records <= records |
| AttendanceSummary.PresentDatesWithin | check_attendance.py:29-41 | every day with a present record is one of the unique dates, so there are at most as many |
| AttendanceSummary.SummaryBounds | check_attendance.py:21-48 | a summary exists exactly when there are records; its counts stay within the records; the percentage is computed exactly when there is a date, and then lies between 0 and 100 |
| StudentListing.RunsPartition | check_students.py:15-23 | the runs hold the students in their order, every run is non-empty, its members show its class, and neighbouring runs show different classes |
| StudentListing.ListingTotals | check_students.py:20-29 | the printed subtotals add up to the number of students, and the listing always ends with a subtotal, which is 0 when there are no students |
| StudentListing.PrintListing | check_students.py:12-29 | the control-break loop prints exactly `Listing`: for each run a header, the members numbered 1..count in order, and the run's subtotal |

## Left out

- Face detection and embedding extraction are left out, because they are DeepFace/OpenCV calls. This covers `extract_embedding` and the recognition driver.
- Cosine similarity is a parameter `score: (Embedding, Embedding) -> real`, with no floating-point arithmetic. The L2 normalisation on load is also left out: loaded arrays are modelled as the stored ones.
- `np.load`, `np.save`, `os.listdir` and `makedirs` are left out. The folder is an ordered map from file name to content, in listing order.
- SQL text, SQLite and SQLAlchemy sessions, PRAGMA queries and the table copy/drop/rename of the rebuild are left out. Tables are in-memory sequences.
- `ORDER BY` is not modelled: the report scripts receive their rows in the order the query returns them.
- Index names are given as data in the model. SQLite names the index of a table-level UNIQUE constraint `sqlite_autoindex_attendance_N`, whose name does not contain "unique". The lookup of that name in the catalogue is not modelled.
- Flask routing, templates, flash messages, sessions and `flask_login` internals are left out. A session is the id of the logged-in user.
- Password hashing is abstract, with salts passed as parameters. Werkzeug's hash format is left out.
- Login form fields are modelled as present strings (`request.form.get` of a missing field is not modelled).
- Dashboards, CSV download and the other diagnostic scripts (`verify_system.py`, `check_schema.py`, `check_periods.py`, `verify_admin.py`, `create_admin.py`, `migrate_db.py`) print or perform single guarded writes. They are not part of this model.
- `models.py` is a declarative schema. Only its uniqueness constraints (`users.username`, `students.roll_no`) appear, as the `Database` invariant.
- Printed text, sorting for display and float formatting of percentages are left out. Percentages are exact reals.
- `PeriodMatching.PeriodToInt`: `isdigit` and `int` are modelled on ASCII digits with an optional sign. Whitespace around the token and `_` digit separators are not modelled.
- `Text.Lower`: it lower-cases ASCII letters only.
- `AttendanceTable.Table.Insert`: the next id comes from a counter that never goes back. The table created by `models.py:70` has no AUTOINCREMENT, so until the rebuild SQLite gives max(id) + 1 and reuses the id of a deleted last row.
- `FixDuplicates.RebuildWithUnique`: period is modelled as an integer, and date and status as present strings, throughout. In the source, `attendance.period` is a TEXT column and date and status may be NULL (`models.py:72-74`). The copy into `period INTEGER NOT NULL` and `date`/`status TEXT NOT NULL` turns a numeric text period such as '3' into 3, lets text-distinct periods such as '3' and '03' collide under the UNIQUE key, and rejects a NULL date or status; the last two raise IntegrityError after the deletes were committed, whereas the model's copy fails only on keys that are already equal.
- `FixDuplicates.FixDuplicates`: for the same reason, "without a key index the UNIQUE key ends up in force" is proved only for tables the typed copy accepts. In the source, the IntegrityError above ends the script before the final verification.
- `FaceUtils.Stackable`: an array is its rows, so a stored array with no rows has no column count. Such an array stacks with rows of any width, where `np.vstack` checks the stored column count.
- `Accounts.Database.RegisterStudent` also rejects a roll number that is already a username. This is the corrected handler (see Findings). The handler as written is `Accounts.RegisterStudentAsWritten`.

## Findings

| source | as written | input that shows it | evidently intended | confidence | as-written member | corrected member |
|---|---|---|---|---|---|---|
| app.py:154-182 | `register_student` checks the roll number only against students. It commits the new student, and only then inserts the login with username = roll number. A roll number that is already a username makes that second insert violate the UNIQUE username constraint. | A teacher registered as "R1"; a teacher then registers a student with roll number "R1". | Every registered student gets a login with username = roll number, as the success message promises. | medium, not executed | Accounts.AsWrittenStudentWithoutLogin | Accounts.Database.RegisterStudent |

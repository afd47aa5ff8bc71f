# Language-school back office: referral bonuses, store tables and window guards

The system is a desktop back office for a language school, written in Python over
SQLite with a Qt user interface. This project models three parts of it in Dafny and
proves what they promise:

- **The referral-bonus ledger** (`db/database.py`). A student who recommends a new
  student earns 1, 3 or 6 free months. A reward row records the two ids, the month
  count, the award date as `YYYY-MM-DD`, and a symbolic name ("Eire", "Canada",
  "USA"). A recommender is "under bonus" while today is before the award date
  advanced by that many calendar months. The alert list holds every bonus that ends
  within the next 7 days. The Gregorian arithmetic underneath is modelled: the
  zero-padded forms of `strptime` and `strftime` for `%Y-%m-%d`,
  `relativedelta(months=n)` with the day clamped to the month's length, and
  `timedelta.days` with floor semantics.
- **The store tables.** Module `Store` models students, levels and rewards as
  sequences of rows in insertion (rowid) order, and class `Store.Database` holds
  them as fields that the table operations reassign in place. The UNIQUE
  constraint on `levels.name` makes `insert_level` and `update_level` fail, and
  `init_levels` uses `INSERT OR IGNORE`. `delete_student` and `update_student`
  touch every row with the given name.
- **The guards and filters of five management windows:** rewards, payments,
  students, classes and levels. Widget state is plain strings, a selected row
  index, and the sequence of names the table currently shows. Each warning dialog
  is a returned error tag, and each store call is a returned record, or a call on
  `Store.Database`. Search boxes are order-preserving, case-insensitive substring
  filters.

`datetime.now()` becomes a parameter `now: Instant`: a valid date plus the
microseconds since midnight, read once per call.

Modules:

- `Common`: `Option` and `Result`.
- `Text`: ASCII digits and lower-casing, Python's `strip`, substring search and
  decimal rendering.
- `Rows`: order-preserving filter, map and error-propagating collect over sequences.
- `Calendar`: dates and date-times.
- `Schema`: the row types.
- `Ledger`: the reward functions.
- `Store`: the tables and class `Database`.
- `Forms`: what the windows share.
- One module per window.

## Model

| member | source | states |
|---|---|---|
| Ledger.RewardName | db/database.py:462-469 | The name is "Eire" exactly for 1 month, "Canada" exactly for 3 and "USA" exactly for 6. Any other count gives its decimal text followed by " meses". |
| Ledger.RewardNameInjective | db/database.py:462-469 | Different month counts never share a reward name. |
| Ledger.CountByNewStudent | db/database.py:522-525 | `COUNT(*)` is at most the number of rows, and is zero exactly when no row has that new student. |
| Ledger.RewardAlreadyGranted | db/database.py:513-525 | True exactly when some reward row carries the given new-student id. |
| Ledger.AppendKeepsOneReward | db/database.py:474-477 | Appending a reward for a new student not yet rewarded keeps "one reward per new student". Afterwards `reward_already_granted` holds for that student. |
| Store.Database.InsertReward | db/database.py:456-480 | Appends exactly one row with the given ids, months, date text and derived name. Earlier rows are unchanged, and a second grant for the same student is not refused. `reward_already_granted` holds afterwards. |
| Ledger.FirstByRecommender | db/database.py:538-544 | `fetchone` without ORDER BY: the first row in rowid order whose recommender is the student, or none exactly when no row has that recommender. |
| Ledger.ExpiryOf | db/database.py:549-550 | The award date plus N months succeeds exactly when the text parses and the month addition stays within years 1 to 9999. The result is a valid date. |
| Ledger.IsStudentUnderBonus | db/database.py:528-553 | With no row for the recommender, false. Otherwise, reading only the first such row, true exactly when today's date is strictly before the expiry date, whatever the time of day. A parse or range error is an error. |
| Ledger.GrantTodayIsActive | db/database.py:528-553 | A recommender whose first reward was awarded today, for at least one month, is under bonus. |
| Ledger.BonusRows | db/database.py:563-568 | The join yields at most one row per reward. |
| Ledger.BonusRowsJoin | db/database.py:563-568 | Every reward whose new student exists appears in the join with that student's name, date and months. Every joined row comes from some reward. |
| Ledger.RowAlert | db/database.py:573-577 | A row raises an error exactly when its expiry cannot be computed. |
| Ledger.RowAlertMeaning | db/database.py:573-577 | A row gives the alert (name, expiry as text, daysLeft) exactly when 0 <= daysLeft <= 7. Here daysLeft is the whole days from today to the expiry, less one unless it is exactly midnight. |
| Ledger.EndsTodayListedOnlyAtMidnight | db/database.py:575-576 | A bonus that ends today is listed, with 0 days left, only at 00:00:00.000000. At any later time its daysLeft is -1 and it is not listed. |
| Ledger.EndedEarlierNeverListed | db/database.py:575-576 | A bonus whose expiry date is already past is never listed. |
| Ledger.GetStudentsWithExpiringBonus | db/database.py:556-578 | The loop builds, in join order, the alerts of the rows that qualify, or stops at the first row whose date fails. |
| Ledger.ExpiringSoonOk | db/database.py:571-577 | The scan succeeds exactly when every joined row has a computable expiry. |
| Ledger.ExpiringSoonExact | db/database.py:571-577 | On success the list holds every qualifying row's alert and nothing else. |
| Ledger.DeleteRewardSpec | db/database.py:482-492 | If either name matches no student, nothing changes. Otherwise exactly the rows with the pair of ids of the first students so named are removed, and the others keep their order. |
| Store.Database.DeleteReward | db/database.py:486-490 | The reward table becomes the rows left by that deletion, and the other tables are unchanged. |
| Ledger.RewardViewOf | db/database.py:501-507 | One reward joins to exactly one view, carrying both students' names and the reward's months, date and name, when both its students exist, and to none otherwise. |
| Ledger.FetchRewardsJoin | db/database.py:501-507 | For any reward table, orphaned rows included: at most one view per reward, and a view is listed exactly when some reward whose two students exist yields it. |
| Ledger.FetchRewardsConcat | db/database.py:501-507 | The listing follows the reward rows: listing two runs of rewards gives the first run's views, then the second's. |
| Ledger.FetchRewardsComplete | db/database.py:501-507 | When both students of every reward exist, the join yields exactly one view per reward, in row order. |
| Schema.StudentById | db/database.py:501-507 | Finds a student with the id, or none exactly when no row has it. |
| Schema.StudentByIdUnique | db/database.py:501-507 | With unique ids, the lookup by a row's id returns that row. |
| Schema.FirstIdByName | db/database.py:488-489 | The scalar subquery gives the id of the first student so named, or none exactly when no student has the name. |
| Store.NextStudentId | db/database.py:151-153 | The INTEGER PRIMARY KEY id exceeds every existing id: 1 for an empty table, otherwise one more than some existing id. |
| Store.InsertStudentRows | db/database.py:145-156 | Appends one student with the given fields and a fresh id. Earlier rows are unchanged and ids stay unique. |
| Store.DuplicateNamesAllowed | test/test_database.py:182-190 | Inserting the same name twice gives two distinct rows that both carry it. |
| Store.FilterKeepsUniqueIds | db/database.py:165 | Deleting rows keeps student ids unique. |
| Store.DeleteStudentSpec | db/database.py:159-168 | Every student with that exact name is removed and every other stays. |
| Store.UpdateStudentRows | db/database.py:171-191 | Every row whose name equals the old name takes the new name, age and level, and keeps its id. Every other row is unchanged, and ids stay unique. |
| Store.FetchStudents | db/database.py:194-203 | One view per student, in row order, with id, name, age and level. |
| Store.InsertThenDeleteStudent | db/database.py:145-168 | An inserted student is listed by `fetch_students`. After deleting its name, no listed student carries it. |
| Store.Database.InsertStudent | db/database.py:145-156 | The student table becomes the table with the new row appended, and the other tables are unchanged. |
| Store.Database.DeleteStudent | db/database.py:159-168 | The student table keeps exactly the rows with another name, and the other tables are unchanged. |
| Store.Database.UpdateStudent | db/database.py:171-191 | The student table becomes the renamed rows, and the other tables are unchanged. |
| Store.InsertOrIgnore | db/database.py:232 | `INSERT OR IGNORE` adds the name only when absent. It keeps level names unique and existing rows in place. |
| Store.InsertOrIgnoreAllStep | db/database.py:231-232 | Inserting one more default name extends the loop by that single statement. |
| Store.InsertOrIgnoreAllSpec | db/database.py:223-235 | The default insertions keep names unique and existing rows in place. Afterwards a name is present exactly when it was before or is a default. |
| Store.InsertOrIgnoreAllPresent | db/database.py:231-232 | When every default is already present, the loop changes nothing. |
| Store.InitLevelsIdempotent | db/database.py:223-235 | Running `init_levels` twice equals running it once, and each of the 12 defaults is then present exactly once. |
| Store.Database.InitLevels | db/database.py:223-235 | The loop leaves the level table equal to the default insertions over the old table, and the other tables unchanged. |
| Store.InsertLevelRows | db/database.py:43 | Inserting fails with a UNIQUE violation exactly when the exact name exists. Otherwise it appends that name and keeps names unique. |
| Store.Database.InsertLevel | db/database.py:251-262 | Fails exactly when the name exists. A failed insert leaves the table unchanged, and a successful one appends the name. |
| Store.RenameLevelAt | db/database.py:287 | `UPDATE ... WHERE name = ?` replaces the old name wherever it occurs and nothing else. |
| Store.UpdateLevelRows | db/database.py:277-289 | The rename fails exactly when the old name exists and the new, different name exists too. Otherwise the old name is replaced (a missing old name changes nothing) and names stay unique. |
| Store.Database.UpdateLevel | db/database.py:277-289 | Fails exactly in that case and then leaves the table unchanged. Otherwise the table becomes the renamed one. |
| Store.DeleteLevelSpec | db/database.py:264-275 | The named level is gone, every other level stays, and names stay unique. |
| Store.Database.DeleteLevel | db/database.py:273 | The level table keeps exactly the other names, and the other tables are unchanged. |
| Store.LevelRoundTrip | test/test_database.py:35-50 | Inserting a new level, renaming it and deleting the new name leaves the level table equal to the original sequence: the insert appends, the rename is in place and the delete removes only the new name. |
| Store.Database.constructor | db/database.py:12-85 | A fresh database has empty tables and satisfies its constraints. |
| Calendar.DaysInMonth | db/database.py:549-550 | Every month has 28 to 31 days. |
| Calendar.ParseDate | db/database.py:549 | `strptime("%Y-%m-%d")` succeeds only on the zero-padded shape and a real date. A failure is a ValueError naming the text. |
| Calendar.FormatDate | db/database.py:577 | `strftime("%Y-%m-%d")` is always ten characters. |
| Calendar.ParseFormat | db/database.py:573-577 | Parsing a formatted date gives the date back. |
| Calendar.FormatParse | db/database.py:573-577 | Formatting a parsed text gives the text back. |
| Calendar.AddMonths | db/database.py:550 | `relativedelta(months=n)` moves the month index by exactly n and yields a valid date. The day is kept, or clamped to the last day of the target month, and is unchanged when it was at most 28. It fails exactly when the year leaves 1 to 9999. |
| Calendar.AddMonthsLater | db/database.py:550 | Adding at least one month gives a strictly later date. |
| Calendar.YearStep | db/database.py:575 | The proleptic Gregorian day count advances by the length of each year. |
| Calendar.YearsApart | db/database.py:575 | Earlier years end before later years begin. |
| Calendar.MonthsApart | db/database.py:575 | Earlier months end before later months begin within a year. |
| Calendar.LastMonth | db/database.py:575 | The months of a year fit within it. |
| Calendar.OrdinalOrder | db/database.py:549-551 | The day number orders dates exactly as the calendar does, and is one to one. |
| Calendar.EarlierThanMidnight | db/database.py:551 | Now is before midnight of a date exactly when today is before that date. |
| Calendar.DaysUntilMidnight | db/database.py:575 | `(midnight of e - now).days` is the day difference, less one unless it is exactly midnight, which is floor division of the interval by one day. |
| Text.DigitsValueBound | ui/manage_students_window.py:154 | `int()` of k digits is below 10^k. |
| Text.DigitsValuePositive | ui/manage_payments_window.py:197 | A digit string has a positive value exactly when some digit is not 0. |
| Text.PadDigitsValue | db/database.py:577 | The zero-padded field has the given width and reads back as the number. |
| Text.PadDigitsOfValue | db/database.py:549 | A digit field of that width is the padding of its own value. |
| Text.NatToString | ui/manage_students_window.py:139 | `str(n)` is a digit string whose value is n, without a leading zero. |
| Text.IntToStringInjective | ui/manage_students_window.py:139 | Different integers give different texts. |
| Text.Lower | ui/manage_students_window.py:133 | `lower()` keeps the length and lower-cases each ASCII letter. |
| Text.SkipSpaces | ui/manage_students_window.py:144 | The first non-whitespace position at or after a start, with only whitespace skipped. |
| Text.SkipSpacesBack | ui/manage_students_window.py:144 | The position after the last non-whitespace character, with only whitespace skipped. |
| Text.StripSlice | ui/manage_students_window.py:144 | `strip()` is a slice that drops only Python whitespace at both ends, and begins and ends with non-whitespace. |
| Text.StripEmpty | ui/manage_students_window.py:149 | A field is empty after `strip()` exactly when it is all whitespace. |
| Rows.FilterSnoc | ui/manage_rewards_window.py:171-184 | A loop that skips rows appends the next row exactly when it passes. |
| Rows.FilterMembership | ui/manage_students_window.py:133 | A row is kept exactly when it is in the input and passes. |
| Rows.FilterConcat | ui/manage_students_window.py:133 | Filtering a concatenation filters each part. |
| Rows.FilterOrder | ui/manage_students_window.py:133 | The kept rows are input rows at strictly increasing positions, so order is preserved. |
| Rows.FilterAll | ui/manage_students_window.py:131-133 | When every row passes, the filter keeps the input. |
| Rows.CollectPrefix | db/database.py:571-577 | The error-propagating scan extends one row at a time. |
| Rows.CollectErrorPersists | db/database.py:571-577 | Once a row raises, the scan's result is that error. |
| Rows.CollectOk | db/database.py:571-577 | The scan succeeds exactly when no row raises. |
| Rows.CollectExact | db/database.py:571-577 | On success the result holds every row's item and only those. |
| Rows.CollectConcat | db/database.py:571-577 | Scanning a concatenation scans the first part, then the second. |
| Rows.ConcatMapPrefix | ui/manage_rewards_window.py:274-275 | Accumulating `message +=` extends by one entry's text. |
| Rows.ConcatMapConcat | ui/manage_rewards_window.py:274-275 | The text of a concatenation is the concatenation of the texts. |
| Rows.ConcatMapAt | ui/manage_rewards_window.py:274-275 | The text splits around any entry. |
| Rows.Map | ui/manage_payments_window.py:151-153 | One item per row, each the image of that row. |
| Forms.ShownVerbatim | ui/manage_classes_window.py:115-116 | A name shown verbatim is caught by the case-insensitive duplicate check. |
| Forms.FilterIgnoresCase | ui/manage_rewards_window.py:167-175 | The search ignores the field's case: lower-casing the field first never changes whether a row is kept. |
| RewardsWindow.AddReward | ui/manage_rewards_window.py:186-224 | The first failing check decides: both students selected, distinct ids, months all digits and in {1, 3, 6}, no earlier grant, a parseable date. Each error holds exactly when the earlier checks pass and its own fails. On acceptance the grant carries the ids, the month count and the stripped date. |
| RewardsWindow.AddRewardKeepsOneReward | ui/manage_rewards_window.py:210-212 | Inserting through the window keeps at most one reward per new student. |
| RewardsWindow.SecondGrantRejected | ui/manage_rewards_window.py:210-212 | After a grant, every later attempt for the same new student is refused, by the grant check once the earlier checks pass. |
| RewardsWindow.SubmitReward | ui/manage_rewards_window.py:224 | `insert_reward` is called once exactly when the form is accepted. No other table changes. |
| RewardsWindow.LoadRewards | ui/manage_rewards_window.py:161-184 | The loop fills the table with the fetched rewards that pass all three filters, in order. |
| RewardsWindow.LoadRewardsShows | ui/manage_rewards_window.py:167-176 | A reward is shown exactly when each non-empty filter occurs, ignoring case, in its field. With all filters empty, every reward is shown. |
| RewardsWindow.OneLinePerAlert | ui/manage_rewards_window.py:274-275 | The message holds one line per alert, in list order. |
| RewardsWindow.ShowExpiringAlerts | ui/manage_rewards_window.py:266-277 | An empty list gives the "no alerts" dialog. Otherwise the dialog holds the header followed by one line per alert. An error from the ledger propagates. |
| PaymentsWindow.FirstDot | ui/manage_payments_window.py:197 | The position of the first "." or none exactly when there is no ".". |
| PaymentsWindow.RemoveFirstDot | ui/manage_payments_window.py:197 | `replace('.', '', 1)` removes the first "." and nothing else. |
| PaymentsWindow.PositiveIffNonZeroDigit | ui/manage_payments_window.py:197 | A digit string is positive exactly when some digit is not 0. |
| PaymentsWindow.DropDotDigitsSides | ui/manage_payments_window.py:197 | Digits around a single "." make a decimal text. |
| PaymentsWindow.DropDotDigitsJoin | ui/manage_payments_window.py:197 | A decimal text without its first "." is a digit string. |
| PaymentsWindow.DropDotDigits | ui/manage_payments_window.py:197 | Removing the first "." leaves digits exactly when the text is a decimal. |
| PaymentsWindow.DropDotNonZero | ui/manage_payments_window.py:197 | Removing the "." keeps whether some digit is non-zero. |
| PaymentsWindow.ValidAmountMeaning | ui/manage_payments_window.py:197-199 | An amount is accepted exactly when it is an integer or decimal text with a non-zero digit, that is, a positive number. |
| PaymentsWindow.AddPayment | ui/manage_payments_window.py:178-208 | The first failing check decides: a student selected (not the placeholder), amount and date present, a valid positive amount, not under bonus. A failing bonus lookup raises. On acceptance the insert carries the stripped fields. |
| PaymentsWindow.NoPaymentDuringBonus | ui/manage_payments_window.py:202-206 | An accepted payment's student has no reward as recommender, or one whose expiry is not after today. |
| PaymentsWindow.NewRecommenderRefused | ui/manage_payments_window.py:202-206 | After a student's first referral is granted today, a payment for them is refused as under bonus. |
| PaymentsWindow.EditPayment | ui/manage_payments_window.py:210-235 | The first failing check decides: a selected row, amount and date present, a valid positive amount. There is no bonus gate. On acceptance the update carries the stripped fields. |
| PaymentsWindow.SameAmountRules | ui/manage_payments_window.py:192-231 | For a student not under bonus, add and edit accept and refuse the same inputs with the same errors and the same field values. |
| PaymentsWindow.LoadPayments | ui/manage_payments_window.py:155-176 | The loop fills the table with the payments that pass both filters, in order. |
| PaymentsWindow.LoadPaymentsShows | ui/manage_payments_window.py:163-171 | A payment is shown exactly when the non-empty student filter occurs in the lower-cased name and the non-empty notes filter occurs in the lower-cased notes, with missing notes read as "". With a notes filter, a payment without notes is never shown. |
| PaymentsWindow.LoadStudentCombo | ui/manage_payments_window.py:147-153 | The combo is the placeholder followed by one "name (ID: id)" item per student, in order. |
| PaymentsWindow.PlaceholderOnlyRefused | ui/manage_payments_window.py:150-189 | With positive student ids, only the placeholder item counts as no selection. |
| StudentsWindow.AddStudent | ui/manage_students_window.py:142-169 | The first failing check decides: the three fields present, an age in digits from 12 to 120, a name no displayed row carries ignoring case. On acceptance the insert has the stripped name, the age's value and the level, and the name differs from every displayed one. |
| StudentsWindow.EditStudent | ui/manage_students_window.py:171-189 | No selection, then any of a blank name, a non-digit age or an empty level, refused by one warning. Otherwise the update is keyed by the selected row's name. |
| StudentsWindow.EditSkipsAgeRange | ui/manage_students_window.py:154-180 | The edit accepts any digit age, where the add refuses exactly the ages outside 12 to 120. |
| StudentsWindow.EditSkipsDuplicateCheck | ui/manage_students_window.py:159-180 | The edit accepts renaming to another displayed student's name, where the add refuses that name. |
| StudentsWindow.SubmitStudent | ui/manage_students_window.py:165 | `insert_student` is called once, without a user id, exactly when the form is accepted. No other table changes. |
| StudentsWindow.SubmitStudentEdit | ui/manage_students_window.py:180-181 | `update_student` is called once exactly when the form is accepted, renaming every student with the selected name. |
| StudentsWindow.ShownStudentsIsFilter | ui/manage_students_window.py:131-133 | The comprehension keeps the students whose lower-cased name contains the lower-cased search, in order. An empty search keeps them all. |
| StudentsWindow.LoadStudents | ui/manage_students_window.py:122-140 | The loop writes one row per shown student, with name, `str(age)` and level, in order. |
| StudentsWindow.AddAfterFullLoadIsNew | ui/manage_students_window.py:159-162 | Against an unfiltered table, an accepted name differs, ignoring case, from every student. |
| StudentsWindow.FilteredTableMissesDuplicates | ui/manage_students_window.py:131-162 | Against a filtered table, a valid name that does not contain the search text is accepted whatever the stored names are. |
| ClassesWindow.AddClass | ui/manage_classes_window.py:103-122 | The first failing check decides: the three fields present, then a name no displayed class carries ignoring case. On acceptance `insert_class` gets the stripped fields. |
| ClassesWindow.EditClass | ui/manage_classes_window.py:124-151 | The first failing check decides: a selection, the three fields present, then a duplicate name, checked only when the name changes other than in case. The form is accepted exactly when every check passes. On acceptance `update_class` is keyed by the old name. |
| ClassesWindow.CaseOnlyRenameAccepted | ui/manage_classes_window.py:143-147 | A case-only rename is accepted although the duplicate check would match it. |
| ClassesWindow.AddClassKeepsUnique | ui/manage_classes_window.py:115-120 | An accepted insert keeps the displayed names unique ignoring case. |
| ClassesWindow.EditClassKeepsUnique | ui/manage_classes_window.py:143-149 | An accepted edit keeps the displayed names unique ignoring case. |
| ClassesWindow.LoadClasses | ui/manage_classes_window.py:93-101 | The loop writes one row per class with name, date and professor, in order. |
| ClassesWindow.AddClassIsNew | ui/manage_classes_window.py:115-118 | After a load, an accepted name differs, ignoring case, from every class. |
| LevelsWindow.AddLevel | ui/manage_levels_window.py:86-103 | An empty name, then a duplicate ignoring case, refused. Otherwise the stripped name is inserted. |
| LevelsWindow.AddLevelNeverViolatesUnique | ui/manage_levels_window.py:96-101 | Against the full level table, an accepted name never breaks the UNIQUE constraint. |
| LevelsWindow.EditLevel | ui/manage_levels_window.py:131-157 | As written: a selection, a non-empty name, then a duplicate check that runs only when the name changes other than in case. The rename is accepted exactly when every check passes. On acceptance `update_level(old, new)` is called. |
| LevelsWindow.CaseVariantRenameHitsUnique | ui/manage_levels_window.py:149-155 | When the table holds two case variants, renaming one to the other passes the window, and `update_level` then fails on UNIQUE. |
| LevelsWindow.CaseVariantPairArises | ui/manage_levels_window.py:149-155 | Renaming a default level to a case variant is accepted and succeeds. After `init_levels` at the next start, both variants are in the table. |
| LevelsWindow.EditLevelChecked | ui/manage_levels_window.py:149-153 | Corrected check: the rename is refused as a duplicate exactly when some other row carries the name ignoring case, and accepted exactly when a row is selected, the name is not blank and no other row carries it. |
| LevelsWindow.UniqueIgnoringCaseIsDistinct | db/database.py:43 | Names unique ignoring case are unique. |
| LevelsWindow.EditLevelCheckedAgrees | ui/manage_levels_window.py:149-153 | When no two rows are case variants, the corrected check agrees with the written one. |
| LevelsWindow.EditLevelCheckedNeverViolatesUnique | ui/manage_levels_window.py:155 | Against the full table, a rename the corrected check accepts never fails on UNIQUE. |
| LevelsWindow.LoadLevels | ui/manage_levels_window.py:78-84 | The loop shows every level name, in order. |
| LevelsWindow.SubmitLevel | ui/manage_levels_window.py:101 | `insert_level` is called once exactly when the form is accepted, and appends the name. |
| LevelsWindow.SubmitLevelEdit | ui/manage_levels_window.py:155 | `update_level` is called once exactly when the corrected check accepts, and then succeeds. |

## Left out

- SQLite plumbing: connections, commits and the DDL text. Only the UNIQUE
  constraint on `levels.name` and the INTEGER PRIMARY KEY of students are kept. The
  AUTOINCREMENT ids of levels, rewards, classes and payments are not modelled,
  because nothing in the modelled code reads them.
- Foreign keys are not enforced by the code and are not modelled. A reward may name
  a student id that does not exist; the joins then drop it.
- Query order: `fetchone`, scalar subqueries and `SELECT` without ORDER BY are read
  as rowid (insertion) order.
- Qt widgets, layouts, styles and dialogs: each warning is an error tag and each
  table a sequence of rows. The confirmation dialogs of the delete buttons in
  every window are left out.
- CSV and Excel export, backup and restore, the login, users and main windows,
  `init_db.py`, and `main.py`. Only the call to `init_levels` at `main.py:11` is
  used, by `LevelsWindow.CaseVariantPairArises`.
- The clock: `datetime.now()` is a parameter read once per call. The source
  reads it again for each row of the alert scan.
- Calendar.ParseDate: `strptime` is more lenient than the model. It accepts non-padded months and
  days such as "2024-1-5" and a space-padded day such as "2024-01- 5". Its
  `\d` also matches non-ASCII Unicode digits in the year, month and day.
  `Calendar.ParseDate` accepts only four, two and two ASCII digits and refuses
  the other forms.
- `isdigit` and `lower` are restricted to ASCII. Unicode digits and letters are
  not modelled.
- The payment amount is a float in the source. The model keeps the decimal text,
  judges positivity on its digits, and does not model float underflow of extremely
  small amounts.
- `insert_class`, `update_class`, `insert_payment` and `update_payment` are
  modelled as the records the windows hand to them. The class and payment tables
  are not held in `Store.Database`, and neither are `fetch_classes`,
  `fetch_payments`, `fetch_levels` or the payments join. Their rows enter the
  window models as input sequences.
- The rewards window's `load_students` combo (ui/manage_rewards_window.py:151-159)
  has no placeholder item, so "no student selected" arises there only when the
  student table is empty. `RewardsWindow.AddReward` takes the selections as
  options, and the combo itself is not modelled.
- `delete_reward`, `delete_student`, `delete_class`, `delete_payment` and
  `delete_level` in the windows only confirm and call the store. The store
  operations are modelled; the window code is not.
- The tests `test_insert_invalid_payment_amount` and
  `test_insert_reward_twice_for_same_student` (test/test_database.py:196-227)
  expect exceptions the code never raises, and pass without checking anything.
  The model follows the code: neither insert refuses anything.
- Calendar.FormatDate: its own contract states only the length of the text; the
  round trips with `Calendar.ParseDate` are stated by `Calendar.ParseFormat` and
  `Calendar.FormatParse`. The model pads years below 1000 to four digits, while
  the padding `strftime` gives such years depends on the platform's C library.
- Ledger.GetStudentsWithExpiringBonus: a row whose date text does not parse
  makes the whole call fail (the ValueError propagates); the model returns that
  error rather than any partial list.
- Store.Database.UpdateLevel: the source's promise "fails when the new name
  exists" is stated in SQLite's exact terms. The rename fails only when the old
  name also exists and differs from the new one; otherwise zero rows change and
  nothing fails.

## Findings

| source | as written | input that shows it | evidently intended | confidence | as-written member | corrected member |
|---|---|---|---|---|---|---|
| ui/manage_levels_window.py:149-155 | The duplicate check is skipped whenever the new name equals the old one ignoring case. | Rename level "A1" to "a1" (accepted). At the next start `init_levels` adds "A1" again, so the table shows "a1" and "A1". Select "a1" and rename it to "A1": the window accepts, and `update_level` raises a UNIQUE IntegrityError that no handler catches. | Refuse the rename when any other row carries the name ignoring case. This never breaks the UNIQUE constraint. | medium, not executed | LevelsWindow.EditLevel | LevelsWindow.EditLevelChecked |

# Doctor scheduling: the sheet-table layer, in Dafny

This project models the storage layer of a doctor scheduling app that keeps
its data in Google Sheets. It covers the `database/` package (connection,
master data, monthly operational data, authentication and settings) and the
preference form of the doctor page.

Every worksheet is a table:

- Row 1 is the header. Data rows follow it.
- In the model a sheet is a `seq<Row>`, a row is a `seq<string>` of cell
  texts, and sheet row `n` is `s[n - 1]`.
- `get_all_records` becomes the header plus `s[1..]`. `r.get(key)` becomes
  `Sheets.Field`, which is `None` when the header lacks the key. A cell past
  the end of a short row reads as `""`.

The gspread calls become updates of these sequences: `update_cell`,
`update`, `batch_update`, `append_row`, `delete_rows`.

The module-level worksheet caches of `connection.py` form the class
`Connection.Database`:

- The master sheets are a `map`.
- The operational sheets are a `map` plus their insertion order (a `seq`),
  because Python dicts iterate in insertion order.
- The class also holds the `init_db` flag, the set of preference sheets whose
  headers were already checked, and the password hash function.

Each writer is a method on that object. Its `ensures` gives the new state as
a function of the old one, and lemmas prove the properties the code promises
about that function:

- at most one row per key after an upsert;
- the effective staffing count after an override write;
- exactly one confirmed plan per sheet;
- cascade deletes that keep every other row;
- the round trip from a password or setting write to the read that follows;
- disjoint NG and avoid lists in the form.

The hash, JSON encoding and decoding, the clock and the Streamlit widgets are
parameters.

Files (one module each):

- `wrappers.dfy`: `Option`.
- `text.dfy`: digits, `str(n)`, `startswith`, `replace`, string order.
- `ordering.dfy`: sorting and distinctness.
- `sheets.dfy`: the table primitives.
- `connection.py` is split in two. `connection.dfy` holds the utilities, the
  caches and `init_db`. `sheets.dfy` holds the shared row-lookup and
  row-deletion loops.
- `master.py` is split in two. `master.dfy` covers doctors, clinics and
  affinities. `overrides.dfy` covers the per-date staffing overrides.
- `operational.py` is split in two. `preferences.dfy` covers preference
  sheets. `schedules.dfy` covers schedule sheets and cleanup.
- `auth.py` is `auth.dfy`.
- `pages/doctor_input.py` is `doctor_input.dfy`.

## Model

| member | source | states |
|---|---|---|
| Connection.SafeJsonLoads | database/connection.py:13-24 | a list or dict comes back unchanged; a non-empty string is decoded; empty text, a non-string or undecodable text gives the default, which is `[]` when it is `None` |
| Connection.SafeJsonLoadsNeverFails | database/connection.py:13-24 | with the default `None` and a decoder that only yields containers, the result is always a list or dict |
| Connection.IsOperationalSheetIff | database/connection.py:29-34 | a sheet is operational exactly when its name starts with "希望_" or "スケジュール_" |
| Connection.CacheFor | database/connection.py:108-112 | names with an operational prefix go to the operational cache, all others to the master cache |
| Connection.MasterName | database/connection.py:29-34 | a name whose first character starts neither prefix is a master sheet |
| Connection.ColLetter | database/connection.py:99-101 | columns 1..26 map to 'A'..'Z' in order |
| Connection.ColLetterInjective | database/connection.py:99-101 | different columns get different letters |
| Connection.FindRowIndex | database/connection.py:134-142 | the result is the first sheet row below the header whose cell in the column equals the value (never row 1), or `None` when no data row matches |
| Sheets.FirstRecord | database/connection.py:134-142 | the first data row (row 2 onwards) that satisfies the test, with no match above it; `None` exactly when no data row matches |
| Text.NatToStringRoundTrip | database/master.py:26 | an id written as `str(n)` is all digits and `int()` reads it back as n |
| Connection.MaxDigitId | database/connection.py:150 | `None` exactly when no cell is all digits; otherwise the largest digit-only value, which some cell holds |
| Connection.NextIdOf | database/connection.py:145-151 | the next id is 1 when no cell below the header is digit-only; otherwise it is one more than the largest digit-only id there: greater than every one of them and one more than one of them |
| Connection.NextId | database/connection.py:145-151 | the loop over column A computes `NextIdOf` of the column |
| Connection.NextIdIsFresh | database/connection.py:145-151 | the text of the next id differs from every digit-only id cell of the sheet |
| Connection.MissingHeaders | database/connection.py:201 | the missing headers are exactly the required ones absent from the existing header |
| Connection.ReconcileHeaders | database/connection.py:196-204 | an empty header becomes the required list; otherwise the existing header stays as a prefix and only missing required headers are appended; every required header ends up present |
| Connection.ReconcileNothingMissing | database/connection.py:201-204 | when no required header is missing, the header row is left as it is |
| Connection.ReconcileIdempotent | database/connection.py:196-204 | reconciling twice gives the same header as reconciling once |
| Connection.WriteSameHeader | database/connection.py:198-204 | writing a sheet's own header back changes nothing |
| Connection.InitTable | database/connection.py:189-204 | a missing sheet is created with the required header; an existing sheet gets the reconciled header and keeps its row count |
| Connection.InitTableKeepsRecords | database/connection.py:189-204 | header initialisation leaves all data rows unchanged |
| Connection.InitTableIdempotent | database/connection.py:189-204 | initialising an initialised table changes nothing |
| Connection.FillBlankCells | database/connection.py:207-221 | only data rows with an empty or absent password cell change, and only in that cell, which gets the default hash; the header and all other rows are unchanged |
| Connection.FillRowsStep | database/connection.py:216-219 | one loop step either adds the range write for a blank row or skips a filled row |
| Connection.DefaultPasswordWrites | database/connection.py:210-221 | the collected `updates` hit only data rows in the password column, and applying them yields `FillBlankCells`; there are none exactly when no password cell is blank |
| Connection.FillDefaultPasswords | database/connection.py:208-221 | a doctor sheet without a `password_hash` header is left alone, and so is one whose batch update raises (a blank password cell in a column past Z) |
| Connection.Database.FillPasswords | database/connection.py:208-221 | the doctor sheet becomes `FillDefaultPasswords` of itself, and the call fails exactly when `PasswordBatchFails` |
| Connection.MasterTableNames | database/connection.py:160-166 | the five master table names are distinct and none is operational |
| Connection.Database.constructor | database/connection.py:104-105 | the caches start from the given sheets, not initialised, with no preference header checked |
| Connection.Database.Put | database/connection.py:115-126 | a write goes to the cache its name routes to and leaves the other cache and the session flags unchanged |
| Connection.Database.RemoveOperational | database/connection.py:238 | `pop(name, None)` drops exactly that name from the operational cache and its order |
| Connection.Database.GetSheet | database/connection.py:115-126 | a cached sheet is returned unchanged; a missing one is created empty and cached in the cache its name routes to |
| Connection.Database.InitMonthlySheet | database/connection.py:224-237 | a cached monthly sheet is returned unchanged; a missing one is created holding the header row |
| Connection.Database.InitDb | database/connection.py:172-221 | after the first call the master tables are initialised and blank doctor passwords filled; it fails, with the tables initialised and no password written, exactly when the password batch raises; later calls change nothing |
| Connection.Database.InitTables | database/connection.py:189-204 | the header loop over the master tables yields `InitTablesFrom` of all of them |
| Connection.InitTablesFromSpec | database/connection.py:189-204 | each of the first k master tables becomes `InitTable` of its old contents |
| Connection.InitTablesFromOthers | database/connection.py:189-204 | sheets that are not master tables are untouched |
| Connection.InitDbTables | database/connection.py:189-221 | after `init_db` every master table is initialised, the doctor table also has its blank passwords filled, and other sheets are untouched |
| Sheets.FindFirstRecord | database/auth.py:35-36 | the `for i, r in enumerate(records)` search finds the first data row satisfying the test |
| Sheets.FirstRecordIs | database/master.py:222-223 | a matching data row with no match above it is the row the search finds |
| Sheets.DeleteRowsDescending | database/master.py:91-92 | deleting the given rows from the bottom up removes exactly those rows and keeps all others in order |
| Sheets.MatchingRowNumbers | database/master.py:87-89 | the collected `rows_to_delete` are exactly the matching data rows, ascending |
| Sheets.CascadeDelete | database/master.py:86-92 | collect, sort descending, delete: the result keeps the header and exactly the non-matching rows, in order |
| Sheets.KeepIsDeleteWhere | database/master.py:86-92 | deleting the matching row numbers is the same as filtering the records |
| Sheets.DeleteWhere | database/master.py:86-92 | the header stays; every remaining record fails the test and came from the sheet; every record that fails the test is kept |
| Sheets.DeleteFirstMatch | database/master.py:93-94 | nothing changes without a match; otherwise exactly the first matching row is removed and the rows below move up |
| Sheets.Upsert | database/master.py:222-228 | with a match that row becomes the update of itself and the row count is unchanged; without one the new row is appended at the end; the header and every record without the key keep their place |
| Sheets.UpsertKeepsOthers | database/master.py:222-228 | when the written rows keep the key, every record of the result without the key is the old record at that place, and no old record without the key moves or changes |
| Ordering.SortDesc | database/master.py:91 | `sorted(rows, reverse=True)` is descending and a permutation of its input |
| Sheets.RowFromValues | database/master.py:48-62 | a row laid out in the sheet's header order reads back each value under its header and "" for unknown headers |
| Sheets.UpsertKeepsKeysUnique | database/master.py:219-228 | rewrite-first-match-or-append keeps "at most one record per key" |
| Sheets.UpsertWritesOnlyMatch | database/master.py:219-228 | after an upsert the key's only record is the rewritten or appended row |
| Sheets.DeleteFirstMatchUnique | database/master.py:100-104 | with unique keys, deleting the first match leaves no record with the key and keeps the others |
| Master.ParseDoctorSpec | database/master.py:21-37 | a record converts exactly when id, is_active and max_assignments parse (name is not read); a blank max_assignments is 0; a blank account_name falls back to account; a missing is_active is 1; a missing name column gives "" |
| Master.ParseDoctorsSpec | database/master.py:24-33 | the conversion fails exactly when one record fails, and otherwise converts record by record |
| Master.GetDoctors | database/master.py:21-37 | the result is sorted by name, holds exactly the converted records minus inactive ones when `active_only`, and fails exactly when a conversion raises or the sort finds doctors but no name column |
| Ordering.SortBy | database/master.py:36 | `sort(key=name)` yields a permutation of the list, ordered by the key |
| Master.ConvertDoctors | database/master.py:24-33 | the record loop yields the converted records without the skipped ones, or fails |
| Sheets.ParseAllSpec | database/master.py:24-33 | converting all records succeeds exactly when every record converts, and then yields one value per record, in order |
| Sheets.ConvertRecords | database/master.py:24-33 | the shared record loop fails exactly when some record fails to convert, and otherwise yields the converted records minus the skipped ones |
| Master.AddDoctorCheck | database/master.py:44-47 | "duplicate_account" exactly when the account is non-empty and taken (checked first); otherwise the name check raises exactly when there are records but no name column; "duplicate_name" exactly when it does not raise and the name is taken |
| Master.NewDoctorRowReadsBack | database/master.py:48-62 | the appended row reads back as the new doctor, with the next id, is_active 1 and max_assignments 0, and the name "" when the sheet has no name column |
| Master.AddDoctor | database/master.py:40-62 | on a duplicate or a raising name check the sheet is unchanged; otherwise exactly one row, in header order with the next id, is appended |
| Master.DoctorWrites | database/master.py:71-79 | writes go only to the doctor's row, in existing columns within A..Z; a missing column, or one past Z where `_col_letter` builds an invalid range, makes the call fail |
| Master.UpdateDoctorSpec | database/master.py:65-80 | an unknown id changes nothing; the call fails and writes nothing exactly when the doctor exists and a given field's column is missing or past Z; otherwise only the given fields of the doctor's row change |
| Master.UpdateDoctor | database/master.py:65-80 | the doctor sheet becomes `UpdateDoctorResult` |
| Master.DeleteFromPrefSheetsSpec | database/master.py:95-108 | every preference sheet loses its first row for the doctor; every other sheet is unchanged |
| Master.DeleteDoctor | database/master.py:83-108 | the doctor's affinity rows are all deleted, then the doctor's row and the doctor's preference rows |
| Master.DeleteFromPrefSheetsLoop | database/master.py:95-108 | the loop over the operational cache yields `DeleteFromPrefSheets` |
| Master.DeleteFromPrefSheet | database/master.py:96-101 | one pass of the loop keeps "the first k cached sheets are done" true for k + 1, leaving the master cache alone |
| Master.DeleteRecordsWith | database/master.py:86-92 | the cascade deletes every record carrying the id and keeps the others in order |
| Master.DeleteRecordById | database/master.py:93-94 | the row `_find_row_index` finds for the id is deleted, if there is one |
| Master.ClinicWrites | database/master.py:159-164 | writes only hit the clinic's row and canonical clinic columns |
| Master.ClinicWritesSkipUnknown | database/master.py:160-161 | a keyword outside the canonical clinic headers adds no write |
| Master.UpdateClinicDropsFixedDoctors | database/master.py:152-167 | passing `fixed_doctors` changes nothing, because it is not a canonical clinic header |
| Master.UpdateClinicSpec | database/master.py:152-167 | an unknown id changes nothing; otherwise only the clinic's row changes: named canonical columns get their values (JSON for the doctor lists) and all other cells stay |
| Master.CollectClinicWrites | database/master.py:158-164 | the keyword loop builds `ClinicWrites` |
| Master.UpdateClinic | database/master.py:152-167 | the clinic sheet becomes `UpdateClinicResult` |
| Master.DeleteClinic | database/master.py:170-196 | every affinity and override row of the clinic is deleted, then the clinic's row |
| Master.SetAffinity | database/master.py:219-228 | the affinity sheet becomes the upsert of the (doctor, clinic) row |
| Master.SetAffinityKeepsPairsUnique | database/master.py:219-228 | at most one row per (doctor, clinic) pair is kept, the pair's only row carries the new weight, and every other pair's rows are unchanged in place |
| Overrides.ReadOverride | database/master.py:240-243 | a record is skipped exactly when its date does not start with the month; an entry carries the record's own date |
| Overrides.OverridesOfFails | database/master.py:235-244 | reading fails exactly when some record in the month does not convert |
| Overrides.OverridesOfKeys | database/master.py:235-244 | the keys are exactly the (clinic, date) pairs of records in the month |
| Overrides.OverridesOfLastWins | database/master.py:235-244 | a later record with the same key overwrites an earlier one |
| Overrides.GetClinicDateOverrides | database/master.py:235-244 | the record loop yields `OverridesOf` |
| Overrides.SetClinicDateOverride | database/master.py:247-265 | the override sheet becomes `SetOverrideResult` |
| Overrides.SetOverrideEffective | database/master.py:247-265 | the table stays well-formed (unique keys, no stored 1); afterwards the effective count (absent means 1) of the clinic date is the one written and every other clinic date keeps its count |
| Overrides.SetDefaultOverride | database/master.py:253-258 | writing 1 deletes the key's row, so the count reads as the default, and every other clinic date keeps its count |
| Overrides.SetOtherOverride | database/master.py:253-265 | writing any other count rewrites or appends the key's only row, which reads back as that count, and every other clinic date keeps its count |
| Overrides.SetOverrideKeepsOther | database/master.py:235-265 | in a month that reads, the write of one clinic date leaves the count `get_clinic_date_overrides` gives every other clinic date unchanged |
| Overrides.InsertNeutral | database/master.py:240-244 | a readable record that is no override of a clinic date, inserted anywhere, changes neither whether the month reads nor that clinic date's count |
| Overrides.ExistingIndexSpec | database/master.py:280-287 | the `existing` dict maps each key to a record that has it, the last one for repeated keys |
| Overrides.BuildExisting | database/master.py:280-287 | the loop builds `ExistingIndex` |
| Overrides.Plan | database/master.py:289-304 | the change loop builds the delete, update and append lists |
| Overrides.PlanComplete | database/master.py:289-304 | existing and 1: deleted; existing and not 1: updated; new and not 1: appended |
| Overrides.PlanSound | database/master.py:289-304 | every delete, update and append comes from a change of that kind; a new key with 1 produces nothing |
| Overrides.PlanDeletesDistinct | database/master.py:289-306 | distinct changes never delete the same row twice |
| Overrides.PlanInRange | database/master.py:289-306 | all updates and deletes address existing data rows |
| Overrides.RunBatch | database/master.py:305-313 | updates, then deletes in descending order, then appends yield `BatchResult` |
| Overrides.DeleteRows | database/master.py:305-307 | deleting distinct rows largest first leaves exactly the rows not listed, in their order |
| Overrides.SetClinicDateOverridesBatch | database/master.py:268-313 | empty changes do nothing; otherwise the sheet becomes `BatchResult` |
| Overrides.BatchKeepsStoredRows | database/master.py:268-313 | no row with count 1 is stored by the batch, and the header is kept |
| Overrides.BatchAppendsNewKeys | database/master.py:298-304 | appended rows carry keys no existing record had |
| Preferences.PrefSheetIsOperational | database/operational.py:23-25 | preference sheets are routed to the operational cache |
| Preferences.CompletePrefHeaderSpec | database/operational.py:23-37 | a checked sheet is untouched; otherwise existing headers stay a prefix, records are kept, every required header is present, and completing twice equals completing once |
| Preferences.GetPrefSheet | database/operational.py:23-37 | the month's sheet is opened or created with the header, completed once per session, and marked checked |
| Preferences.CompletePrefSheet | database/operational.py:27-37 | the cached sheet is replaced by its completed form and the name is marked checked |
| Preferences.ParsePreferenceSpec | database/operational.py:51-63 | a record converts exactly when doctor_id parses; missing date_clinic_requests becomes {}, missing ng_dates [], missing free_text "" |
| Preferences.PreferencesOfSpec | database/operational.py:51-63 | reading fails exactly when one record fails, and otherwise converts record by record |
| Preferences.ConvertPreferences | database/operational.py:54-62 | the record loop yields `PreferencesOf` |
| Preferences.GetAllPreferences | database/operational.py:51-63 | the preferences are the conversion of the completed month sheet |
| Preferences.FirstPreference | database/operational.py:40-46 | the result is the first record with the doctor's id, or `None` when there is none |
| Preferences.FindPreference | database/operational.py:43-46 | the loop returns `FirstPreference` |
| Preferences.GetPreference | database/operational.py:40-46 | the result is the first preference of the doctor in the month, or `None` |
| Preferences.DoctorNameFor | database/operational.py:78-82 | an unknown doctor gets ""; a known one gets the name of a doctor with that id |
| Preferences.FindDoctorName | database/operational.py:78-82 | the loop over the doctors returns `DoctorNameFor` |
| Preferences.PrefRow | database/operational.py:83-88 | falsy list arguments are stored as `[]`, falsy requests as `{}`, a missing free text as "", with the doctor's id, name and the time |
| Preferences.UpsertPreferenceOnePerDoctor | database/operational.py:87-92 | the doctor's row is rewritten in place or appended, keeping one row per doctor; it holds the new data, and every other doctor's rows are unchanged in place |
| Preferences.UpsertPreference | database/operational.py:66-92 | the doctor's name is looked up, then the month sheet becomes the upsert of the doctor's row |
| Preferences.ReadDoctorName | database/operational.py:77-82 | fails exactly when `get_doctors` raises (a record does not convert, or there are doctors but no name column); otherwise gives "" for an unknown id and the name of a doctor with the id for a known one |
| Preferences.NameLookupFromDoctors | database/operational.py:77-82 | the name loop over the sorted doctors finds the name a doctor with that id has in record order, and "" when no record has the id |
| Preferences.WriteDoctorPreference | database/operational.py:76-92 | after the name lookup, the month sheet becomes the upsert of the doctor's row, and is unchanged when `get_doctors` raises |
| Schedules.SchedSheetIsOperational | database/operational.py:97-101 | schedule sheets are routed to the operational cache |
| Schedules.SaveIsUpsert | database/operational.py:104-121 | `save_schedule` is an upsert keyed by plan name |
| Schedules.SaveScheduleSpec | database/operational.py:104-121 | one row per plan name is kept; the plan's row holds the new assignments, variance, score and time, with is_confirmed reset to 0; every other plan's rows are unchanged in place |
| Schedules.SaveScheduleIds | database/operational.py:119-120 | a new plan gets the next id, which no existing digit id matches |
| Schedules.SaveSchedule | database/operational.py:104-121 | the month sheet becomes `SaveScheduleResult` |
| Schedules.WritePlan | database/operational.py:106-121 | the month sheet becomes `SaveScheduleResult`, and the call reports failure, changing nothing, exactly when that result is `None` |
| Schedules.FindSchedule | database/operational.py:143-148 | the result is the first schedule sheet, in cache order, holding the id, with the id's first row; `None` when no schedule sheet has it |
| Schedules.FindScheduleRow | database/operational.py:143-148 | the nested loops compute `FindSchedule` |
| Schedules.ConfirmColumn | database/operational.py:150-152 | the written F column is 1 on the target row and 0 on every other data row, and no other cell changes |
| Schedules.ConfirmColumnOne | database/operational.py:150-152 | afterwards exactly the target row reads as confirmed |
| Schedules.ConfirmScheduleSpec | database/operational.py:141-154 | an unknown id changes nothing; otherwise only the sheet found changes, with exactly the target row confirmed |
| Schedules.ConfirmSchedule | database/operational.py:141-154 | the operational cache becomes `ConfirmScheduleResult` |
| Schedules.ConfirmScheduleCrossesMonths | database/operational.py:141-154 | two months each holding id 1: the as-written search confirms January's plan when February's was meant |
| Schedules.ConfirmScheduleInSpec | database/operational.py:141-154 | searching only the month's sheet confirms exactly the target row there and changes nothing else |
| Schedules.ConfirmScheduleIn | database/operational.py:141-154 | the operational cache becomes `ConfirmScheduleInResult` |
| Schedules.DeleteScheduleSpec | database/operational.py:157-166 | an unknown id changes nothing; otherwise exactly the found row is deleted and the rows below move up |
| Schedules.DeleteSchedule | database/operational.py:157-166 | the operational cache becomes `DeleteScheduleResult` |
| Schedules.UpdateAssignmentsSpec | database/operational.py:169-184 | an unknown id changes nothing; otherwise only cells C and G of the found row change |
| Schedules.UpdateScheduleAssignments | database/operational.py:169-184 | the operational cache becomes `UpdateAssignmentsResult` |
| Schedules.ConfirmedInSpec | database/operational.py:196-202 | a sheet's reading fails exactly when a record's flag or a confirmed record's id does not parse; otherwise it holds exactly the confirmed records |
| Schedules.ConfirmedOfSheet | database/operational.py:196-202 | the record loop computes `ConfirmedIn` |
| Schedules.FailurePersists | database/operational.py:197-199 | once a record raises, the whole reading fails |
| Schedules.ConfirmedAllSpec | database/operational.py:189-204 | fails exactly when some schedule sheet fails; otherwise holds exactly the confirmed records of all schedule sheets |
| Schedules.AllConfirmedSpec | database/operational.py:189-204 | the result is sorted by month, holds only confirmed rows, and each carries its sheet's month |
| Schedules.GetAllConfirmedSchedules | database/operational.py:189-204 | the sheet loop computes `AllConfirmedResult` |
| Schedules.SheetFailurePersists | database/operational.py:192-202 | once a sheet raises, the whole reading fails |
| Schedules.HasConfirmedSpec | database/operational.py:217-220 | a sheet counts as confirmed exactly when the first record whose flag is neither missing nor a parsable 0 holds a parsable non-zero value; it fails when that record's flag does not parse; it is unconfirmed when every flag is a parsable 0 or missing |
| Schedules.MonthNameInjective | database/operational.py:215 | different schedule sheet names give different months |
| Schedules.MonthsOfSpec | database/operational.py:212-220 | the months listed are exactly those with a confirmed plan, each once |
| Schedules.ConfirmedMonthsSpec | database/operational.py:209-222 | the result is in descending order, lists exactly the months with a confirmed plan, each once |
| Ordering.SortStringsDesc | database/operational.py:221 | `months.sort(reverse=True)` is a permutation in descending string order |
| Schedules.ScanConfirmed | database/operational.py:217-220 | the record loop with `break` computes `HasConfirmed` |
| Schedules.GetConfirmedMonths | database/operational.py:209-222 | the sheet loop computes `ConfirmedMonthsResult` |
| Schedules.MonthFailurePersists | database/operational.py:212-220 | once a sheet raises, the whole listing fails |
| Schedules.IsOldIff | database/operational.py:233-236 | a sheet is old exactly when, for some operational prefix it starts with, its name minus the prefix is below the cutoff |
| Schedules.DropIfOld | database/operational.py:233-238 | an old sheet is dropped from the cache and its order; any other is kept |
| Schedules.DropIfOldUnder | database/operational.py:234-238 | for one prefix: a sheet under it whose month is before the cutoff leaves the cache and its order; otherwise nothing changes |
| Schedules.DeleteOldSchedules | database/operational.py:227-238 | the operational cache keeps exactly the sheets that are not old, in their order, with their contents |
| Schedules.DeleteOldSchedulesKeeps | database/operational.py:227-238 | a sheet survives exactly when it is cached and no prefix's month suffix is below the cutoff |
| Auth.GetSettingSpec | database/auth.py:24-29 | the setting is the value of the first record with the key, and `None` when no record has it |
| Auth.SetSettingSpec | database/auth.py:24-41 | afterwards the key reads the new value, every other key reads as before, the header is kept, and one record per key is kept |
| Auth.SetSettingKeepsUnique | database/auth.py:32-41 | the update-or-append keeps at most one record per key |
| Auth.SetSetting | database/auth.py:32-41 | the settings sheet becomes `SetSettingResult` |
| Auth.SetAdminPassword | database/auth.py:50-51 | the hash of the password is stored under `admin_password` |
| Auth.VerifyAdminPasswordSpec | database/auth.py:46-58 | verification is true exactly when the stored hash is non-empty and equals the password's hash; false when no password is set |
| Auth.SetAdminPasswordThenVerify | database/auth.py:46-58 | after setting p, a password counts as set and p is accepted; a password with a different hash is refused |
| Auth.SetOpenMonth | database/auth.py:119-121 | the month is stored under `open_month` |
| Auth.SetOpenMonthThenGet | database/auth.py:112-121 | after setting the open month it reads back, and the admin password is untouched |
| Auth.FirstWithId | database/auth.py:66-68 | the first doctor with the id is in the list; `None` exactly when no doctor has it |
| Auth.FirstWithIdUnique | database/auth.py:66-68 | with unique ids, the search finds the one doctor with the id whatever the list's order |
| Auth.DoctorPasswordSpec | database/auth.py:63-93 | with unique ids, both checks raise when `get_doctors` finds doctors but no name column; otherwise "set" is true exactly when the doctor exists with a non-empty hash, and verification is true exactly when that hash also equals the password's hash; an unknown id is false |
| Auth.SetDoctorCell | database/auth.py:72-81 | without the doctor's row nothing changes; otherwise exactly one cell of that row changes |
| Auth.WriteDoctorCell | database/auth.py:74-81 | the doctor sheet becomes `SetDoctorCell` of its old contents; the other caches are unchanged |
| Auth.DoctorHeaderColumns | database/auth.py:78-79 | `password_hash` is column D and `email` column C of the doctor header list |
| Auth.SetDoctorPassword | database/auth.py:72-81 | the doctor sheet becomes `SetDoctorCell` at the password column with the hash |
| Auth.UpdateDoctorEmail | database/auth.py:98-107 | the doctor sheet becomes `SetDoctorCell` at the e-mail column |
| Auth.DoctorCellWritten | database/auth.py:72-107 | writing column C or D of the doctor's row keeps all records convertible and ids unique; the doctor then carries the new value |
| Auth.SetDoctorPasswordThenVerify | database/auth.py:63-93 | after setting p for a present doctor, the password counts as set, p is accepted, and a password with another hash is refused |
| Auth.UpdateDoctorEmailThenRead | database/auth.py:98-107 | after the update, `get_doctors` shows the doctor with the new address |
| DoctorInput.SavedDates | pages/doctor_input.py:18-19 | a saved list of hashable values contributes its strings, a dict its keys; `set()` fails exactly on a number, boolean or null, or on a list holding a list or dict |
| DoctorInput.DefaultDayIndex | pages/doctor_input.py:31-36 | the radio defaults to × exactly when the date was saved as NG, to △ exactly when it was saved only as avoid, and to ○ otherwise |
| DoctorInput.NgWinsOnLoad | pages/doctor_input.py:31-36 | a date saved in both sets loads as NG |
| DoctorInput.Selected | pages/doctor_input.py:43-46 | the list holds exactly the target dates whose status is the option |
| DoctorInput.ClassifyDays | pages/doctor_input.py:25-46 | the loop yields the NG dates and the △ dates, and no date is in both lists |
| DoctorInput.SelectedKeepsOrder | pages/doctor_input.py:28-46 | both lists keep the order of the target dates (calendar order) |
| DoctorInput.ClassifyReload | pages/doctor_input.py:17-46 | reloading saved lists and submitting the form unchanged gives the same lists back |
| DoctorInput.StoredClinicId | pages/doctor_input.py:69-71 | an ASCII-digit string becomes its number, any other string 0, an int stays as it is |
| DoctorInput.DefaultClinicIndex | pages/doctor_input.py:72 | the default index is the first position of the stored id among the options, and 0 ("指定なし") when it is not an option |
| DoctorInput.DateClinicRequests | pages/doctor_input.py:53-81 | a date gets a request exactly when it is a target date not marked NG and its choice is not 0; 0 is never stored |
| DoctorInput.SavedClinicLoads | pages/doctor_input.py:69-72 | a saved id that is still offered, as an int or as its digit text, loads as that clinic |
| DoctorInput.UnknownClinicLoadsAsNone | pages/doctor_input.py:69-72 | text that is not all digits, or an id no longer offered, loads as "指定なし" |
| DoctorInput.RequestsReload | pages/doctor_input.py:52-81 | reloading saved requests and submitting unchanged stores them again, except on dates now NG |

## Left out

- Network and retries: gspread connections, `st.secrets`, worksheet creation
  on the server and `_retry` are I/O. The caches stand in for the
  spreadsheets, so a sheet that is not cached does not exist in the model.
- Caching: `st.cache_data` TTL caching and `_clear_data_cache` are
  performance plumbing. Reads always see the current sheet.
- Cell types: `get_all_records` turns numeric-looking cells into numbers.
  The model compares cell texts instead. `str(r["id"]) == str(id)` is text
  equality of the id cell and `str(n)`. A header row that repeats a name
  is read through the first column of that name, where gspread's
  `get_all_records` rejects such a header.
- `int()`: modelled on ASCII digits only. In the record readers, a sign,
  spaces or Unicode digits make the conversion fail in the model, where
  Python may accept them.
- `Connection.NextIdOf` and `Connection.NextId`: `isdigit()` is modelled
  on ASCII digits only. A column-A cell of other Unicode digits is skipped
  as a non-id. Python counts "٣" as id 3, and a cell "²" makes `int()`
  raise, so `_next_id` fails where the model still returns an id.
- `DoctorInput.StoredClinicId`: `isdigit()` is modelled on ASCII digits
  only. A stored string of other Unicode digits loads as 0 in the model.
  Python either reads it as its number ("٣") or raises in `int()` ("²").
- Floats: weights, total_variance and satisfaction_score are kept as opaque
  cell texts. `PyValue` has no float, so a stored JSON clinic id `3.0`,
  which Python matches against the option 3, cannot arise from `decode`.
  The app itself only stores ints there.
- Trailing cells: `row_values`/`get_all_values` trimming of trailing blank
  cells is not modelled. A short row reads as blank past its end.
- Foreign libraries and the clock: SHA-256, JSON encoding and decoding,
  `datetime.now()` and the `relativedelta` cutoff are parameters (`hash`,
  `encode`, `decode`, `now`, `cutoff`).
- `Connection.ColLetter`: requires 1 ≤ col ≤ 26. Python's `chr(64 + col)` gives
  other characters outside that range. The writes that build a range from
  such a letter (`update_doctor`, the password fill of `init_db`) are
  modelled as failing there, without computing the letter.
- `Ordering.SortBy`: proves a sorted permutation, not the stability of
  Python's `sort`.
- `Overrides.SetClinicDateOverridesBatch`: no statement gives a key's
  effective count after a batch, unlike `SetOverrideEffective` for a
  single change. What is proved is how each change is classified into
  deletes, updates and appends (`PlanComplete`, `PlanSound`), that the
  stored-row invariant and the header survive (`BatchKeepsStoredRows`),
  and that appended rows never repeat a stored key (`BatchAppendsNewKeys`).
- `Schedules.MonthsOfSpec` and `Schedules.ConfirmedMonthsSpec`: distinctness
  of months is proved only for distinct cache names whose month part does
  not contain "スケジュール_" again, because `replace` removes every
  occurrence.
- `Auth.DoctorPasswordSpec` and `Auth.SetDoctorPasswordThenVerify`: proved
  under unique doctor ids. With duplicate ids the answer depends on the
  name order `get_doctors` sorts into.
- `DoctorInput.SavedDates`: the render path that raises on such a value is
  not carried into `ClassifyDays`, which takes the two saved sets as
  inputs.
- `date_clinic_requests`: a stored `date_clinic_requests` that is not a dict
  (where `.get` raises) is not modelled. `DateClinicRequests` takes the
  dict.
- Widgets: the Streamlit radio and select boxes are functions from the date
  and default index to the chosen value.
- Display: labels, captions and the ×/△/○ marks are not modelled.
- Other reads: `get_schedules`, `get_clinics`, `add_clinic` and
  `get_affinities` are reads or writes outside the listed core and are not
  part of this model. `get_doctors`' sorting and filtering are modelled.

## Findings

| source | as written | input that shows it | evidently intended | confidence | as-written member | corrected member |
|---|---|---|---|---|---|---|
| database/operational.py:141-154 | `confirm_schedule(id)` searches every schedule sheet in cache order and confirms the first row with that id, but ids are only unique within a month's sheet (`_next_id` restarts at 1 in each) | sheets "スケジュール_2025-01" and "スケジュール_2025-02" each hold plan id 1; confirming February's plan 1 confirms January's instead and leaves February unconfirmed | confirm the plan with that id in the month being edited | not executed | Schedules.ConfirmSchedule, Schedules.ConfirmScheduleCrossesMonths | Schedules.ConfirmScheduleIn, Schedules.ConfirmScheduleInSpec |

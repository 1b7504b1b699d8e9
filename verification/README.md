# ESG report entitlements: a Dafny model

This project models the core of a Django backend for ESG (environmental, social, governance) company reports.

The centre of the model is the **report-entitlement ledger**. This is the `UserCompany` table: it records which user may read which company's report. Around the ledger sit:

- **The views.** They assign, reactivate, remove and list ledger rows, delete users, and decide whether a report file is served.
- **The admin actions.** These are bulk assignment, activate/deactivate, `save_model`, the grade badge and the counters.
- **The two management commands.** They build the company catalogue from an Excel sheet:
  - `load_excel_data` matches PDF files to company names and upserts by ISIN;
  - `sync_excel_data` normalises column names and creates or force-merges records.
- **The user model.** Its `save()` normalises username and email; its `clean()` checks uniqueness ignoring case; it also has `full_name` and `display_name`.
- **The serializer logic** that computes fields.

Layout, one module per file:

| module | models |
|---|---|
| `Wrappers` | `Option` |
| `Text` | Python's `strip`, ASCII `lower`/`upper`, `startswith`/`endswith`, substring `in`, `replace` |
| `Users` | the `CustomUser` of `models.py` (a class whose `Save` and `SetPassword` change its fields), `clean`, `full_name`, subscription choices |
| `AltUsers` | the alternate `CustomUser` of `custom_user.py` (username as primary key) |
| `Catalog` | `Company` rows, the upsert by ISIN, Excel sheets and cells |
| `Store` | the database as a class `Database`: users, companies, the ledger, reports, report ownership, with the model constraints as its `Valid()` invariant and the ORM operations as methods |
| `PdfMatching` | the PDF filename mapping, `companies_match`/`clean_name`, exact-then-partial selection |
| `LoadExcel` | `load_excel_data` |
| `ExcelSync` | `sync_excel_data` |
| `Views` | the views of `views.py`, both definitions where a view is defined twice |
| `Admin` | `admin.py` |
| `Serializers` | `serializers.py` |

HTTP outcomes are a `Status` value. A view that changes the database is a method of `Views` or `Admin` that takes the `Database` object; its contract states the status and, for each case, every table it changes and that the others stay as they were. The rows of a table are kept in insertion order. Ids and `assigned_at` stamps come from counters that only grow, so `-assigned_at` ordering is the reverse of table order.

Where `views.py` defines a view twice, the later `def` is the one the URL table reaches. Both are modelled: the earlier one carries `First` in its name, and the live one does not.

## Model

| member | source | states |
|---|---|---|
| Users.ParseSubscription | backend/api/models.py:42-51 | only the four stored choice values parse, each back to its own choice |
| Users.SubscriptionRoundTrip | backend/api/models.py:42-51 | every subscription choice survives being stored and read back |
| Users.CustomUser.constructor | backend/api/models.py:12-58 | a new user has no primary key, an empty password that no raw value matches, subscription `free`, not verified, not staff |
| Users.CustomUser.Save | backend/api/models.py:65-74 | username and email become lower-cased and stripped; every other field is unchanged |
| Users.CustomUser.SetPassword | backend/api/serializers.py:21 | only the password changes, and only to the hashed form of the raw value |
| Users.NormalizeShape | backend/api/models.py:65-74 | a saved username or email is lower-case, with no whitespace at either end |
| Users.NormalizeIdempotent | backend/api/models.py:65-74 | saving an already saved user leaves username and email as they are |
| Users.FindClash | backend/api/models.py:80-86 | finds another user, not the one excluded, with the same username ignoring case, or proves there is none |
| Users.CleanUser | backend/api/models.py:76-89 | `clean` fails exactly when the username is non-empty and another user has it ignoring case |
| Users.FullNameCases | backend/api/models.py:94-97 | `full_name` is the username when both names are blank, else the stripped "first last" (non-empty) |
| Users.FullNameOfTidyNames | backend/api/models.py:94-97 | tidy first and last names are joined by exactly one space |
| AltUsers.FirstOther | backend/api/custom_user.py:86-88 | true exactly when a row other than the excluded key matches ignoring case |
| AltUsers.CleanAsWritten | backend/api/custom_user.py:80-105 | the shipped `clean`: the username error when a row other than the one keyed by the current username clashes, else the email error when the email clashes |
| AltUsers.CleanExcluding | backend/api/custom_user.py:80-105 | `clean` excluding the stored row: the username error first, then the email error |
| AltUsers.CleanAsWrittenMissesExactDuplicate | backend/api/custom_user.py:86-88 | an unsaved user typing an existing username exactly passes the shipped `clean` |
| AltUsers.CleanRejectsNewDuplicates | backend/api/custom_user.py:84-105 | an unsaved user is rejected iff its username clashes ignoring case; if it passes, neither username nor email clashes |
| AltUsers.DisplayNameIsFullName | backend/api/custom_user.py:115-120 | `display_name` always equals `full_name` |
| Catalog.IsinIndex | backend/api/models.py:101 | finds the company with an ISIN; absent exactly when no row has that ISIN |
| Catalog.Upsert | backend/api/management/commands/load_excel_data.py:121-162 | `update_or_create` by ISIN: the ISIN set grows by the record's ISIN, ISINs stay unique, other rows are unchanged, the table grows by at most one |
| Catalog.ColumnIndex | backend/api/management/commands/load_excel_data.py:90 | the position of a column with that name; absent exactly when no column has it |
| Catalog.RowGet | backend/api/management/commands/sync_excel_data.py:130-136 | `row.get(key)`: absent exactly when the column does not exist |
| Store.UserIndex | backend/api/views.py:382 | finds the user with an id, or proves there is none |
| Store.UserNamed | backend/api/views.py:720 | finds the user with an exact username, or proves there is none |
| Store.UserNamedIsTheUser | backend/api/models.py:17-25 | with unique usernames, the lookup by username finds exactly the one user holding it |
| Store.PairIndex | backend/api/views.py:385 | finds the ledger row of a (user, company) pair, or proves there is none |
| Store.RowIndex | backend/api/views.py:748 | finds the ledger row with an id, or proves there is none |
| Store.ReportIndex | backend/api/views.py:236 | finds the report with an id, or proves there is none |
| Store.OwnershipIndex | backend/api/views.py:257 | finds the `UserReport` with an id, or proves there is none |
| Store.OwnershipPair | backend/api/views.py:241-244 | finds the `UserReport` of a (user, report) pair, or proves there is none |
| Store.Filter | backend/api/views.py:764 | a queryset filter keeps exactly the rows the predicate accepts and never adds rows |
| Store.FilterCount | backend/api/views.py:764-766 | `count()` is the size of the filtered rows; the complementary filter keeps the rest |
| Store.FilterKeeps | backend/api/models.py:163-164 | deleting any set of rows keeps the ledger chronological and one row per pair |
| Store.NullifyAll | backend/api/models.py:157 | `SET_NULL` clears `assigned_by` exactly on the rows the deleted user granted |
| Store.CascadeUserRows | backend/api/models.py:155-157 | after a user is deleted, a row survives iff it belonged to another user; only its `assigned_by` may be cleared |
| Store.NullifyKeeps | backend/api/models.py:157 | clearing a grantor keeps the ledger chronological and one row per pair |
| Store.OwnedCascadeFrom | backend/api/models.py:205-211 | after a user is deleted, every surviving `UserReport` belonged to another user with at most its `assigned_by` cleared, and every `UserReport` of another user survives, with `assigned_by` cleared exactly when the deleted user granted it |
| Store.OwnedCascadeUnique | backend/api/models.py:217 | the `UserReport` cascade keeps (user, report) unique |
| Store.Database.constructor | backend/api/models.py:153-218 | an empty database satisfies every model constraint |
| Store.Database.AddAssignment | backend/api/models.py:153-166 | `objects.create`: one new active row with a fresh id and the current time; one row per pair is kept |
| Store.Database.UpdateAssignment | backend/api/views.py:387-391 | saving a row changes only its `is_active`, `assigned_by` and `notes` |
| Store.Database.EditAssignment | backend/api/admin.py:130-137 | an admin edit of user, company, flag, grantor and notes keeps one row per pair |
| Store.Database.DeleteAssignmentAt | backend/api/views.py:751 | deleting one row leaves every other row |
| Store.Database.DeleteAssignmentsOf | backend/api/views.py:764-766 | deletes every row of the user, active or not, and returns their number |
| Store.Database.DeleteUserAt | backend/api/models.py:155-157 | a user delete cascades to the user's rows and nulls `assigned_by` on rows the user granted |
| Store.Database.DeleteAllCompanies | backend/api/management/commands/load_excel_data.py:48-50 | deleting every company empties the ledger |
| Store.Database.DeleteCompanyAt | backend/api/models.py:156 | deleting a company deletes exactly its ledger rows |
| Store.Database.PutCompany | backend/api/management/commands/load_excel_data.py:121-162 | the upsert leaves the ledger and the constraints intact |
| Store.Database.AddOwnership | backend/api/models.py:205-218 | one new `UserReport`; (user, report) stays unique |
| Store.Database.DeleteOwnershipAt | backend/api/views.py:258 | deleting one `UserReport` leaves the rest in order |
| Store.Reverse | backend/api/models.py:164 | `-assigned_at` ordering lists the rows back to front |
| Store.NewestFirstExact | backend/api/models.py:164 | an ordered listing holds exactly the rows its filter accepts |
| Store.NewestFirstOrder | backend/api/models.py:164 | an ordered listing runs from the newest `assigned_at` to the oldest |
| Store.MyReportsExact | backend/api/views.py:193-203 | `my_reports` lists exactly the caller's active rows, newest first |
| PdfMatching.KeyIndex | backend/api/management/commands/load_excel_data.py:81 | the position of a key in the mapping, or its absence |
| PdfMatching.Put | backend/api/management/commands/load_excel_data.py:81 | assigning to a dict key keeps every existing key in its place and adds an entry only for a new key |
| PdfMatching.PutLookup | backend/api/management/commands/load_excel_data.py:81 | after assigning, the key maps to the new value and every other key is unchanged |
| PdfMatching.PutUnique | backend/api/management/commands/load_excel_data.py:81 | keys stay unique |
| PdfMatching.MappingOfLookup | backend/api/management/commands/load_excel_data.py:76-81 | a key maps to the last listed `.pdf` file whose derived key it is |
| PdfMatching.MappingOfUnique | backend/api/management/commands/load_excel_data.py:76-83 | the mapping has unique keys |
| PdfMatching.GetPdfFilenameMapping | backend/api/management/commands/load_excel_data.py:66-83 | a missing directory gives an empty mapping; otherwise the loop builds `MappingOf` the listing |
| PdfMatching.ScrubNeverGrows | backend/api/management/commands/load_excel_data.py:190 | removing a stop word never lengthens a name |
| PdfMatching.ScrubRemovesInside | backend/api/management/commands/load_excel_data.py:190 | a stop word left inside another word after the spaced replacements is still cut out by the bare `replace(word, '')`, so the name gets shorter |
| PdfMatching.CleanedNeverGrows | backend/api/management/commands/load_excel_data.py:187-191 | `clean_name` never lengthens a name |
| PdfMatching.CleanName | backend/api/management/commands/load_excel_data.py:187-191 | the stop-word loop computes `Cleaned` |
| PdfMatching.CompaniesMatch | backend/api/management/commands/load_excel_data.py:182-197 | the method computes `Matches` on the cleaned names |
| PdfMatching.MatchesSymmetric | backend/api/management/commands/load_excel_data.py:197 | `companies_match` is symmetric |
| PdfMatching.MatchesReflexive | backend/api/management/commands/load_excel_data.py:197 | `companies_match` is reflexive |
| PdfMatching.EmptyCleanMatchesAll | backend/api/management/commands/load_excel_data.py:197 | a name that cleans to empty matches every name |
| PdfMatching.MatchesIsContainment | backend/api/management/commands/load_excel_data.py:197 | a match is containment of one cleaned name in the other |
| PdfMatching.FirstWhere | backend/api/management/commands/load_excel_data.py:114-118 | the first entry in mapping order that satisfies the test, or proof that none does |
| PdfMatching.FirstMatching | backend/api/management/commands/load_excel_data.py:114-118 | the loop with `break` returns that first matching entry |
| PdfMatching.PartialMatch | backend/api/management/commands/load_excel_data.py:113-118 | the partial-match loop returns `FirstPartial` |
| PdfMatching.ChoosePdf | backend/api/management/commands/load_excel_data.py:104-118 | the exact key wins; otherwise the first partial match in mapping order |
| PdfMatching.ChosenIffSomeMatch | backend/api/management/commands/load_excel_data.py:104-118 | a file is chosen iff the exact key exists or some entry matches |
| PdfMatching.ChosenIsListed | backend/api/management/commands/load_excel_data.py:104-118 | a chosen file is a value of the mapping |
| LoadExcel.StripColumns | backend/api/management/commands/load_excel_data.py:90 | each column name is stripped, in order |
| LoadExcel.CellText | backend/api/management/commands/load_excel_data.py:97-98 | a missing column or a NaN cell reads as ""; any text read has no whitespace at either end |
| LoadExcel.RowText | backend/api/management/commands/load_excel_data.py:123-161 | the upsert's `defaults` give a value for every text column of `Company` and for no other key |
| LoadExcel.LegacyMirrors | backend/api/management/commands/load_excel_data.py:152-160 | each legacy column equals the new column it mirrors |
| LoadExcel.HasPdfIffMatched | backend/api/management/commands/load_excel_data.py:104-118 | `has_pdf_report` is true iff a file was chosen |
| LoadExcel.LoadRowsIsins | backend/api/management/commands/load_excel_data.py:94-169 | loading keeps ISINs unique; the ISIN set grows by exactly the ISINs of non-skipped rows |
| LoadExcel.UniqueIsinsCount | backend/api/management/commands/load_excel_data.py:121 | with unique ISINs, the table has one row per ISIN |
| LoadExcel.ReloadAddsNoRows | backend/api/management/commands/load_excel_data.py:121-162 | loading the same sheet twice creates no further rows |
| LoadExcel.LoadedCountBound | backend/api/management/commands/load_excel_data.py:169 | `companies_loaded` counts non-skipped rows, at most one per row |
| LoadExcel.LoadCompaniesData | backend/api/management/commands/load_excel_data.py:85-175 | the row loop upserts each non-skipped row and counts created and updated alike |
| LoadExcel.LoadOne | backend/api/management/commands/load_excel_data.py:95-171 | one row: a blank ISIN or name leaves the table and the count alone; otherwise the table is the upsert of the row's record and the count goes up by one |
| LoadExcel.Handle | backend/api/management/commands/load_excel_data.py:30-64 | a missing workbook changes nothing; `--force` first empties companies and ledger; an unreadable workbook raises; otherwise the companies are loaded and funds are 0 |
| ExcelSync.NormalizeColumns | backend/api/management/commands/sync_excel_data.py:45 | each column is stripped, lower-cased and has spaces replaced by `_` |
| ExcelSync.NormalizeColumnShape | backend/api/management/commands/sync_excel_data.py:45 | a normalised column has no space and no upper-case letter |
| ExcelSync.NormalizeColumnIdempotent | backend/api/management/commands/sync_excel_data.py:45 | normalising twice is normalising once |
| ExcelSync.SafeGet | backend/api/management/commands/sync_excel_data.py:129-136 | a missing key or NaN gives the default; otherwise the value |
| ExcelSync.SafeText | backend/api/management/commands/sync_excel_data.py:159-180 | `str(x or '')` of a safe value |
| ExcelSync.HasCompanyData | backend/api/management/commands/sync_excel_data.py:120-122 | a row with company data is a company row |
| ExcelSync.CompanyData | backend/api/management/commands/sync_excel_data.py:159-180 | `company_data` holds exactly the sourced columns |
| ExcelSync.MergeNonEmpty | backend/api/management/commands/sync_excel_data.py:187-193 | `--force` overwrites only non-empty values and keeps the rest |
| ExcelSync.SyncRowKeeps | backend/api/management/commands/sync_excel_data.py:147-200 | a row keeps ISINs unique and drops none; the table grows by one record exactly when the row reports a creation |
| ExcelSync.SyncRowsCounts | backend/api/management/commands/sync_excel_data.py:53-95 | ISINs stay unique; the table grows by exactly `companies_created`; created plus updated is at most the row count |
| ExcelSync.NoForceNoUpdates | backend/api/management/commands/sync_excel_data.py:184-193 | without `--force` nothing is updated: the counter stays 0 and the table before the sync is a prefix of the table after it |
| ExcelSync.ProcessCompanyRow | backend/api/management/commands/sync_excel_data.py:147-200 | a missing name or ISIN gives (False, False) and no write; a new ISIN creates (True, False); an existing one is kept (False, False) or force-merged (False, True) |
| ExcelSync.SyncOne | backend/api/management/commands/sync_excel_data.py:54-94 | one row of the sync loop moves the table and the two company counters exactly as one step of `SyncRows` does, a failing row changing nothing |
| ExcelSync.Handle | backend/api/management/commands/sync_excel_data.py:27-107 | a missing or unreadable workbook is a `CommandError`; otherwise the counters and table follow `SyncRows`, a failing row is skipped, and the fund counters stay 0 |
| Views.AssignCompanyToUser | backend/api/views.py:370-414 | 400 on missing fields; 404 for an unknown user or ISIN; an inactive row is reactivated with the new grantor and notes, a null note stored as NULL (200); an active row is a 400; otherwise one new active row (201) |
| Views.AssignAvailableReportFirst | backend/api/views.py:550-585 | an unknown username or ISIN is a 500; an existing row is untouched (200); a new row carries grantor and notes (201) |
| Views.AssignAvailableReport | backend/api/views.py:705-741 | the same without grantor and notes; afterwards the pair has a row, and a repeat call changes nothing |
| Views.RemoveCompanyFromUser | backend/api/views.py:743-757 | an unknown id is a 500; otherwise exactly that row goes |
| Views.RemoveAllCompaniesFromUser | backend/api/views.py:759-772 | an unknown user is a 500; otherwise every row of the user goes, the count is returned, and others' rows stay |
| Views.DeleteUser | backend/api/views.py:331-364 | an unknown id is a 500; a staff target is a 403, then the caller's own account is a 403; otherwise the user goes, the ledger and report ownership cascade, and companies and reports are unchanged |
| Views.NewestEntitled | backend/api/views.py:462-467 | the newest active row of the caller for a company with that name, or proof that there is none |
| Views.RequestCompanyReport | backend/api/views.py:157-185 | 200 iff a name is given and the caller holds no active row for it ignoring case; else 400 |
| Views.FirstGateway | backend/api/views.py:457-491 | 403 iff the caller has no active row for that exact name; otherwise the newest such row decides: 404 iff its company has no file name, no report flag or no file on disk, 200 iff the file exists and opens, 500 iff it exists but does not open |
| Views.FirstNamed | backend/api/views.py:651 | the first company whose name matches ignoring case, or proof that none does |
| Views.LiveGateway | backend/api/views.py:645-692 | no ledger check: 404 iff no company matches ignoring case, its file name is empty, or the file is absent; 200 iff the first match's file exists and opens; 500 iff it exists but does not open |
| Views.LiveGatewayServesUnentitled | backend/api/views.py:645-668 | a caller with no ledger row gets 403 from the first definition and 200 from the live one |
| Views.AdminUserReportsById | backend/api/views.py:287-309 | exactly the user's active rows, newest first |
| Views.ListAvailableReports | backend/api/views.py:694-703 | exactly the companies with a non-empty file name |
| Views.AdminAssignmentsFirstExact | backend/api/views.py:418-426 | exactly the active rows, newest first |
| Views.AdminAssignmentsLiveAsWritten | backend/api/views.py:774-791 | the shipped listing answers 200 only for an empty ledger |
| Views.AdminAssignmentsLiveFailsOnAnyRow | backend/api/views.py:787 | one row is enough for the shipped listing to fail |
| Views.AdminAssignmentsLive | backend/api/views.py:774-791 | the intended listing: 200 with every row, active or not, newest first |
| Views.AssignReportToUser | backend/api/views.py:226-250 | 400 on missing ids; 404 for an unknown user or report; 400 when already owned; otherwise one new `UserReport` (201) |
| Views.RemoveReportFromUser | backend/api/views.py:253-262 | an unknown id is a 404; otherwise exactly that row goes and every other table is unchanged |
| Views.NameMappingsSound | backend/api/views.py:87-105 | every name maps to a listed PDF that has an entry; every entry is keyed by its own file name |
| Views.GetCompanyNameMappings | backend/api/views.py:66-111 | a missing or unreadable workbook gives two empty dicts; otherwise the loop computes `NameMappings` |
| Views.PdfFor | backend/api/views.py:451-454 | a file is returned iff the name maps to a non-empty existing file |
| Views.FindCompanyPdf | backend/api/views.py:445-454 | no directory means no file; a returned file exists and ends in `.pdf` |
| Views.SyncExcelDataFirst | backend/api/views.py:429-439 | 500 iff the sync command raises `CommandError`, which leaves the table alone; otherwise the table is the sync without `--force`, so no stored company is overwritten |
| Views.SyncExcelData | backend/api/views.py:793-803 | a missing workbook is a 200 that changes nothing; only an unreadable one is a 500, with no change; a readable one upserts every row not skipped; the ledger is untouched |
| Admin.CompanyGrade | backend/api/admin.py:147-152 | "-" iff the grade is empty; otherwise green for "A…", orange for "B…", red otherwise |
| Admin.AssignedCompaniesCount | backend/api/admin.py:37-41 | the count equals the length of the user's active-row listing |
| Admin.AssignedUsersCount | backend/api/admin.py:76-80 | the count equals the number of the company's active rows |
| Admin.CountersCountActiveRows | backend/api/admin.py:37-80 | both counters count exactly the active rows of their user or company |
| Admin.UsersNamed | backend/api/admin.py:88 | the selected users are exactly those whose username is listed |
| Admin.AssignPair | backend/api/admin.py:92-102 | one `get_or_create`: creates iff the pair had no row; afterwards it has one |
| Admin.AssignCompanyToAll | backend/api/admin.py:91-102 | every selected user gets a row for the company; only new pairs get rows |
| Admin.AssignAll | backend/api/admin.py:89-102 | every selected company ends up with a row for every selected user; the only new rows are bulk rows for pairs that had none, and the count is the number of new rows |
| Admin.AssignToUsers | backend/api/admin.py:83-115 | no apply or no usernames: no change; otherwise every selected pair has a row, each new row is active with the requester as grantor and the bulk note, old rows are untouched, and the count is the number of new rows |
| Admin.SetActive | backend/api/admin.py:160-168 | every selected row gets the flag, nothing else changes, and the count is the number of selected rows |
| Admin.SaveModel | backend/api/admin.py:155-158 | an add records the requester as grantor whatever the form said; a change keeps the form's grantor; no other table changes |
| Serializers.TextOrBlank | backend/api/serializers.py:120-126 | "" exactly when the column is NULL or empty, else its value |
| Serializers.ReportFilename | backend/api/serializers.py:128-130 | the file name when the report flag is set, otherwise None |
| Serializers.DownloadUrl | backend/api/serializers.py:132-136 | present iff the flag is set and the file name is non-empty; a URL under the download prefix |
| Serializers.DownloadUrlRoundTrip | backend/api/serializers.py:132-136 | the download route (`reports/download/<str:company_name>/`, `urls.py` line 36) reads the URL back to the company name when the name is a plain segment (non-empty, no `/ ? # % \`, not `.` or `..`), and reaches no download view when the name is empty or has `/`, `?` or `#`; a company with a URL also shows its file name |
| Serializers.HasPdfReportListed | backend/api/serializers.py:161-163 | true iff the file name is present and not all whitespace |
| Serializers.ListedFlagIgnoresStoredFlag | backend/api/serializers.py:161-163 | the listed flag and the stored flag disagree in both directions |
| Serializers.ApplyAllLastWins | backend/api/serializers.py:28-32 | after the loop each field holds its last item's value, the password only hashed; other fields keep their values |
| Serializers.SetField | backend/api/serializers.py:31-32 | `setattr` changes exactly one field |
| Serializers.SetAttributes | backend/api/serializers.py:28-32 | the loop computes `ApplyAll`, routing the password to `set_password` |
| Serializers.UpdateUser | backend/api/serializers.py:26-35 | `update` is the loop followed by one `save()` |
| Serializers.CreateUser | backend/api/serializers.py:17-24 | `create` stores the other fields normalised and the password only hashed; the second save changes nothing else |

## Left out

- Serializers.DownloadUrlRoundTrip: percent-decoding by the server and client URL normalisation (dot segments, `\` read as `/`) are not modelled, so no round trip is promised for names holding `%` or `\`, or for the names `.` and `..`.
- HTTP, DRF and JWT machinery is not modelled. Responses become a `Status`, and a view's status is modelled together with its database effect. Permission decorators are not modelled either. `remove_all_companies_from_user` and `admin_user_reports_by_id` carry none in the source.
- Request parameters that are not integers (a string `user_id`) are not modelled. Ids are `int` and a missing field is `None`.
- File-system and Excel I/O are inputs:
  - a workbook is `Missing`, `Unreadable` or a sheet;
  - a directory listing is a sequence of names;
  - the reports directory is a map from file name to readable or unreadable.
  An error in the middle of reading a workbook is not modelled, apart from rows that `sync_excel_data` skips.
- Views.GetCompanyNameMappings: the `except Exception` path is modelled only for an unreadable workbook, not for an error raised by a single row.
- LoadExcel.LoadCompaniesData: the per-row `except` is not modelled. A database error during an upsert is outside the model.
- `load_excel_data`'s `transaction.atomic()` rollback is not modelled, apart from the `Raised` outcome when the workbook cannot be read.
- The `-assigned_at` ordering of `UserCompany` is modelled. Other default orderings are not: `Company` by `company_name`, `Report` by year. The company `.first()` in the live gateway is the first match in table order, not in name order.
- `assigned_at` is a counter used only for ordering. Clock values and time zones are not modelled.
- Path traversal in `_secure_pdf_path`, and `FileResponse` headers, are not modelled. Only existence and readability of the file decide the outcome.
- A sheet with two columns of the same stripped name (which pandas returns as a Series) is not modelled; the first such column is read.
- The fund path of `sync_excel_data` is not modelled: `_process_fund_row`, `_safe_float` and floating point. The fund predicates are always false, so its counters stay 0. `load_funds_data` returns 0 and is modelled as such.
- The default `--file-path` of `sync_excel_data` is not modelled. `os.path.join` with an absolute second part drops `BASE_DIR`; the model takes the workbook as an input.
- Store.Database.UpdateAssignment and Views.SyncExcelDataFirst do not model `updated_at`-style auto timestamps.
- Password hashing is not modelled: `Hashed(raw)` stands for the hash of `raw`. The `write_only` rendering of the password is not modelled, because no serializer output is modelled; the model only guarantees that the raw password is never stored.
- Users.CustomUser.Save models only the field normalisation. Writing the row is the ORM's work.
- Admin.SaveModel: the admin form's own validation (existing user and company, a free pair) is taken as its precondition.
- The Note CRUD views, the Report CRUD views, `user_reports`, `all_reports`, `admin_user_reports`, `admin_users_list`, the seeding and maintenance commands, and the print-only scripts are not part of this model.
- Case mapping is ASCII only: `Lower`, `Upper` and `SameIgnoringCase` map A-Z and a-z and leave every other character alone, where Python's `lower`/`upper` and Django's `iexact` follow Unicode (`"ß".upper()` is `"SS"`, `"İ".lower()` is two code points). This holds for Users.Normalize and Users.NormalizeShape, PdfMatching.PdfKey and PdfMatching.Cleaned, ExcelSync.NormalizeColumn and Views.PdfFiles.
- The default ordering of `CustomUser` by username is not modelled: Admin.AssignToUsers takes the selected users in table order, so the order of the rows it creates is not the source's.
- `request_company_report` stores nothing, so its outcome is the only thing modelled.
- Views.SyncExcelDataFirst: the command runs without `--force`, and its error message text is not modelled.

## Findings

| source | as written | input that shows it | evidently intended | confidence | as-written member | corrected member |
|---|---|---|---|---|---|---|
| backend/api/custom_user.py:86-88 | `clean()` excludes `pk=self.pk`, but the primary key here is the username, so every stored row whose username is exactly the new one is excluded | an unsaved user "alice" with email "alice@example.org" when a user "alice" with that email is stored: no error is raised | exclude only the row the instance was loaded from, so a new exact duplicate is rejected | high (not executed) | AltUsers.CleanAsWrittenMissesExactDuplicate | AltUsers.CleanRejectsNewDuplicates |
| backend/api/views.py:787 | the live `admin_user_company_assignments` reads `assignment.date_added`, a field `UserCompany` does not have | any ledger with one row: the `AttributeError` is caught and the view answers 500 | read `assigned_at` and list every row, newest first | high (not executed) | Views.AdminAssignmentsLiveFailsOnAnyRow | Views.AdminAssignmentsLive |

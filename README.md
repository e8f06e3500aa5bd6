# Salt backend core, modelled in Dafny

This project models the service layer of the Salt backend. The backend
is a web API that stores an agency's sales pipeline (project
opportunities with a project code, dates, status and per-department
fees), its saved quotes, its overhead-employee roster and a per-user
key/value store. It also models the parts around that layer:
- bearer-token authentication and the admin check;
- the settings that build the database URL and read the CORS origin list;
- the merge of configured and built-in CORS origins;
- the `/pipeline` routes.

The database is a class `Database.Db`. Its map fields stand for the
tables: `users`, `pipeline_opportunities`, `quotes`, `user_storage` and
`overhead_employees`. Each SQL statement the services issue is one update
of those maps. Rows are keyed by their primary key or conflict target,
and `Db.Valid()` is the invariant that every row sits under its own key.

Python's string and value semantics are spelled out in the modules
`Common` and `PyStrings`:
- truthiness and `or`;
- `strip`, `lower` and `split`;
- `str.replace`;
- `int()`;
- `zfill`;
- code-point string order.

`Sorting` is a stable sort by key lists, the model of `sorted(..., key=...,
reverse=...)` and `ORDER BY`. `Calendar` holds dates, `monthrange`,
`isoformat` and `fromisoformat`.

What cannot be seen is a parameter:
- the current time `now`;
- fresh UUIDs;
- `json.loads`;
- the pydantic validators;
- `str()` and `json.dumps` of a non-string JSON value;
- Firebase token verification.

Modules:
- `Common`, `PyStrings`, `Sorting`, `Calendar`: Python semantics the services rely on.
- `Database`: the tables, `Db`, and `_ensure_user`.
- `PipelineService`: `app/services/pipeline_service.py`.
- `QuotesService`: `app/services/quotes_service.py`.
- `OverheadService`: `app/services/overhead_service.py`.
- `StorageService`: `app/services/storage_service.py`.
- `PipelineRouter`: `app/routers/pipeline.py`.
- `Auth`: `app/core/auth.py`.
- `Config`: `app/core/config.py`.
- `App`: the CORS policy of `app/main.py`.

## Model

| member | source | states |
|---|---|---|
| Database.EnsuredUsers | app/services/pipeline_service.py:84-93 | The user is present afterwards; every existing user keeps their e-mail; no other user appears; a new user gets the given e-mail or `<id>@placeholder.local` |
| Database.EnsureUser | app/services/quotes_service.py:19-28 | The users table becomes `EnsuredUsers` of the old table (insert, or do nothing on conflict) |
| PipelineService.NormalizeStatusSynonym | app/services/pipeline_service.py:9-27 | Every spelling in the synonym table normalises to its canonical status |
| PipelineService.CanonicalStatusFixed | app/services/pipeline_service.py:9-27 | Every canonical status name normalises to itself |
| PipelineService.NormalizeStatusIdempotent | app/services/pipeline_service.py:9-27 | Normalising the name of a normalised status changes nothing |
| PipelineService.NormalizeStatusDefault | app/services/pipeline_service.py:9-27 | A missing or empty status becomes "open" |
| PipelineService.NormalizeStatus | app/services/pipeline_service.py:9-27 | No contract of its own; `NormalizeStatusSynonym`, `NormalizeStatusFolds`, `NormalizeStatusUnmapped` and `NormalizeStatusDefault` state what it returns |
| PipelineService.NormalizeStatusFolds | app/services/pipeline_service.py:9-27 | A status whose stripped lower-case text is in the synonym table becomes that synonym's canonical status |
| PipelineService.NormalizeStatusUnmapped | app/services/pipeline_service.py:9-27 | A status whose stripped lower-case text, or "open" when it is missing or empty, is not in the synonym table becomes "open" |
| PipelineService.ParseMonthYear | app/services/pipeline_service.py:38-46 | A recognised label is two words; the year, in 1..9999, is the value of the second; the month, in 1..12, is the one whose abbreviation or full name equals the first word ignoring case |
| PipelineService.ParseDate | app/services/pipeline_service.py:30-32 | Empty input gives no date |
| PipelineService.ParseDateShape | app/services/pipeline_service.py:30-58 | Any date the parser returns has the `YYYY-MM-DD` shape and no surrounding blanks |
| PipelineService.TextDateShape | app/services/pipeline_service.py:38-58 | A date read from a month label or a timestamp has the `YYYY-MM-DD` shape and starts and ends with a digit |
| PipelineService.DateFromText | app/services/pipeline_service.py:38-58 | No contract of its own; `TextDateShape`, `ParseDateMonthLabel` and `ParseDateFullMonthLabel` state the dates it gives |
| PipelineService.ParseDateIdempotent | app/services/pipeline_service.py:30-58 | Parsing a parsed date again gives the same date |
| PipelineService.ParseMonthYearLabel | app/services/pipeline_service.py:39-46 | Every label "Mon YYYY" built from a month and a four-digit year is read back as that month and year |
| PipelineService.ParseDateMonthLabel | app/services/pipeline_service.py:38-52 | A "Mon YYYY" label becomes the ISO text of the first day, or for an end field the last day, of that month |
| PipelineService.NamesDistinct | app/services/pipeline_service.py:41-43 | No two full month names are equal ignoring case |
| PipelineService.MonthNumberOfName | app/services/pipeline_service.py:41-43 | `%B` reads each full month name as its own month |
| PipelineService.FullNameAsAbbreviation | app/services/pipeline_service.py:41-43 | `%b` reads no full month name as a different month; only "May" matches an abbreviation at all, as itself |
| PipelineService.ParseMonthYearFullLabel | app/services/pipeline_service.py:39-46 | Every label "Month YYYY" built from a full month name and a four-digit year is read back as that month and year |
| PipelineService.ParseDateFullMonthLabel | app/services/pipeline_service.py:38-52 | A "Month YYYY" label becomes the ISO text of the first day, or for an end field the last day, of that month |
| PipelineService.NormalizeMonth | app/services/pipeline_service.py:61-72 | Empty input gives None and nothing else does; an ISO-readable value becomes its "Mon YYYY" label; any other value is kept, trimmed |
| PipelineService.MonthLabelShape | app/services/pipeline_service.py:66-69 | A "Mon YYYY" label is at most eight characters long, has no surrounding blanks and is not read as an ISO date |
| PipelineService.NormalizeMonthIdempotent | app/services/pipeline_service.py:61-72 | Normalising a non-empty normalised month again changes nothing |
| PipelineService.FeeMappingInverse | app/services/pipeline_service.py:113-152 | The entry-to-column fee mapping and its reverse undo each other; `studio` is stored as `digital_fees` and `strategy` as `strategic_planning_fees` |
| PipelineService.ToColumns | app/services/pipeline_service.py:113-122 | No contract of its own; `FeeMappingInverse` states that it and `FromColumns` undo each other |
| PipelineService.FromColumns | app/services/pipeline_service.py:144-152 | No contract of its own; `FeeMappingInverse` states that it and `ToColumns` undo each other |
| PipelineService.ToDbRow | app/services/pipeline_service.py:96-125 | Fails with "projectCode is required" exactly when the code is empty; otherwise the row carries the code, the "Integrated"/"Canada" defaults, the normalised status, the caller as creator and updater, the fees under their columns, and dates and months from the normalisers |
| PipelineService.RowRoundTrip | app/services/pipeline_service.py:96-159 | Reading a written row back keeps the code, names, amounts and fees, and returns the normalised status and the writer as author; writing the read entry again gives the same row except for the start and end dates and months |
| PipelineService.FromDbRow | app/services/pipeline_service.py:128-159 | No contract of its own; `RowRoundTrip` states which fields of a written row it reads back |
| PipelineService.AdditionOf | app/services/pipeline_service.py:164-176 | A changelog item is an "addition" for the entry's code, name and client, dated by its update time, else its creation time, else now; its user is the updater's e-mail, else the creator's, else the given e-mail, else "system" |
| PipelineService.Additions | app/services/pipeline_service.py:163-176 | One addition per entry, in entry order |
| PipelineService.BuildChangelog | app/services/pipeline_service.py:162-177 | The changelog is a permutation of the entries' additions, one per entry, sorted by date text newest first, stable for ties |
| PipelineService.CodeAfterShape | app/services/pipeline_service.py:322-330 | A derived code starts with "P" and ends with "-" and the year |
| PipelineService.MatchesCodePattern | app/services/pipeline_service.py:314-322 | No contract of its own: it is the `LIKE 'P____-<year>'` test, one character, then four of any kind, then a dash and the year; `CodeAfterMatchesPattern` is stated with it |
| PipelineService.CodeAfter | app/services/pipeline_service.py:324-330 | No contract of its own; `CodeAfterShape`, `CodeAfterNumeric`, `CodeAfterRestart` and `CodeAfterMatchesPattern` state the code it derives |
| PipelineService.NextNumber | app/services/pipeline_service.py:325-329 | No contract of its own; `NextNumberDigits` states it |
| PipelineService.NextNumberDigits | app/services/pipeline_service.py:325-327 | When characters 1-4 of the latest code are digits, the next number is their value plus one |
| PipelineService.CodeAfterMatchesPattern | app/services/pipeline_service.py:314-330 | Below 9999 the derived code again matches `P____-<year>`, so the next query can find it |
| PipelineService.CodeAfterNumeric | app/services/pipeline_service.py:324-330 | When characters 1-4 of the latest code are digits, the next code holds that number plus one, zero-filled to at least four digits |
| PipelineService.CodeAfterRestart | app/services/pipeline_service.py:325-329 | When characters 1-4 of the latest code are not an integer, numbering restarts at P0001 |
| PipelineService.NextProjectCode | app/services/pipeline_service.py:312-330 | With no code of the pattern `P????-<year>`, the result is P0001-year; otherwise it follows the greatest such code in string order; it always starts with P and ends with -year |
| PipelineService.UpsertRows | app/services/pipeline_service.py:182-227 | Upserting a sequence of rows leaves exactly the old codes plus the submitted codes |
| PipelineService.Upserted | app/services/pipeline_service.py:200-224 | No contract of its own; `UpsertRowEffect` states the row it yields |
| PipelineService.UpsertRow | app/services/pipeline_service.py:200-224 | No contract of its own; `UpsertRowEffect` states its effect |
| PipelineService.UpsertRowEffect | app/services/pipeline_service.py:200-224 | The code is present afterwards and no other code changes; a new code is stored as written at `now`; an existing code keeps its creator and creation time, takes every other column from the new row, and is updated at `now` |
| PipelineService.PruneOwned | app/services/pipeline_service.py:229-235 | No contract of its own; `ReplacedOwnership` and `ReplacedKeepsOthers` state which rows the prune leaves |
| PipelineService.DeleteOwned | app/services/pipeline_service.py:236-237 | No contract of its own; `ReplacedEmpty` makes it replacing with no entries, for which `ReplacedOwnership` and `ReplacedKeepsOthers` state that exactly the caller's rows go |
| PipelineService.Replaced | app/services/pipeline_service.py:180-237 | No contract of its own; the `Replaced*` lemmas state what replacing leaves |
| PipelineService.DeleteOwnedIsPruneNothing | app/services/pipeline_service.py:229-237 | The empty-submission delete removes exactly what pruning with an empty keep-set removes |
| PipelineService.CodedPrefix | app/services/pipeline_service.py:182-183 | The first entry without a code is where the loop raises; every earlier entry has a code |
| PipelineService.RowsOf | app/services/pipeline_service.py:182-198 | One row per submitted entry |
| PipelineService.RowsOfAt | app/services/pipeline_service.py:182-198 | The j-th row is the `ToDbRow` row of the j-th entry |
| PipelineService.UpsertRowsAt | app/services/pipeline_service.py:182-227 | After the loop, an unsubmitted row is untouched; a submitted code keeps its original creator and creation time and is updated now |
| PipelineService.UpsertRowsLastWins | app/services/pipeline_service.py:200-224 | The last submission of a code decides its row: the upsert of that submission over the row as it was before the loop |
| PipelineService.ReplacedEmpty | app/services/pipeline_service.py:229-237 | Replacing with no entries deletes exactly the caller's rows |
| PipelineService.ReplacedHasSubmitted | app/services/pipeline_service.py:180-237 | Every submitted code is present after a replace |
| PipelineService.ReplacedOwnership | app/services/pipeline_service.py:180-237 | After a replace, the caller owns a code exactly when it was submitted and was new or already the caller's |
| PipelineService.ReplacedKeepsOthers | app/services/pipeline_service.py:229-235 | Other users' rows survive a replace, unchanged unless resubmitted |
| PipelineService.ReplacedLastWins | app/services/pipeline_service.py:182-227 | A code submitted more than once holds the upsert of its last submission |
| PipelineService.UpsertRowConsistent | app/services/pipeline_service.py:200-224 | An upsert on the code conflict target keeps every row under its own code |
| PipelineService.PruneConsistent | app/services/pipeline_service.py:229-237 | Pruning and deleting keep every row under its own code |
| PipelineService.Joined | app/services/pipeline_service.py:240-252 | A listed entry carries the code of its row |
| PipelineService.UpsertEach | app/services/pipeline_service.py:182-227 | The loop stops at the first entry without a code, having upserted the rows of the entries before it in order |
| PipelineService.ReplacePipelineEntries | app/services/pipeline_service.py:180-237 | The caller is ensured as a user; it fails with "projectCode is required" exactly when some entry lacks a code, after upserting the entries before it; otherwise the table becomes the upserts followed by the prune of the caller's unsubmitted rows |
| PipelineService.PruneUnsubmitted | app/services/pipeline_service.py:229-237 | Removes exactly the caller's rows whose code was not submitted |
| PipelineService.UpsertPipelineEntry | app/services/pipeline_service.py:255-305 | The caller is ensured; an entry without a code fails and writes nothing; otherwise the row is upserted and the stored row is returned, with the entry's code, owner and fees |
| PipelineService.DeletePipelineEntry | app/services/pipeline_service.py:308-309 | Removes exactly the row with the given code |
| PipelineService.GetPipelineEntries | app/services/pipeline_service.py:240-252 | Lists every row once, ordered by code, joined with its creator's and updater's e-mails |
| Calendar.DaysInMonth | app/services/pipeline_service.py:50 | A month has 28 to 31 days, and February has 29 exactly in leap years |
| Calendar.FromIsoFormat | app/services/pipeline_service.py:55-56 | Whatever is read is a valid calendar date |
| Calendar.IsoDateRoundTrip | app/services/pipeline_service.py:52 | `isoformat` of a valid date has the `YYYY-MM-DD` shape and reads back as the same date |
| Calendar.IsoDate | app/services/pipeline_service.py:52 | No contract of its own; `IsoDateRoundTrip` states its shape and that it reads back |
| Calendar.ParseIsoDatePart | app/services/pipeline_service.py:54-56 | Whatever date part `fromisoformat` reads is a valid calendar date |
| Calendar.MonthLabel | app/services/pipeline_service.py:66-67 | No contract of its own; `MonthLabelShape` states its shape |
| Sorting.SortBy | app/services/pipeline_service.py:177 | No contract of its own; `SortBySpec` and `SortByStable` state it |
| Sorting.SortBySpec | app/services/pipeline_service.py:177 | The result is a permutation of the input, of the same length, ordered by the key |
| Sorting.SortByStable | app/services/pipeline_service.py:177 | For every key, the elements with that key keep their input order |
| Sorting.SortedKeys | app/services/pipeline_service.py:249 | Lists every key of the map once, in ascending order |
| Calendar.MonthNumber | app/services/pipeline_service.py:41-43 | A month name is found case-insensitively, and not found exactly when no name of the table matches |
| QuotesService.ValidateQuote | app/models/quote.py:5-13 | Validates exactly the objects whose declared fields have their declared types; every given field is kept; missing declared fields become null |
| QuotesService.ValidateQuoteIdempotent | app/models/quote.py:5-13 | Validating a validated dump again gives the same dump |
| QuotesService.NormalizeDate | app/services/quotes_service.py:9-16 | A falsy value gives None; otherwise there is a date exactly when `fromisoformat` reads the value's text, and then it is that date in ISO shape |
| QuotesService.NormalizeDateIdempotent | app/services/quotes_service.py:9-16 | Normalising a normalised date again changes nothing |
| QuotesService.ParseQuotesValue | app/services/quotes_service.py:31-42 | null gives no quotes; a list is taken as it is; a string holding a JSON list gives that list; anything else gives no quotes |
| QuotesService.ParseQuotesValueIdempotent | app/services/quotes_service.py:31-42 | Parsing the parsed list again changes nothing |
| QuotesService.ProjectOf | app/services/quotes_service.py:49-50 | The project fails exactly when a truthy `project` is not an object; an object is used as it is |
| QuotesService.UidOfSpec | app/services/quotes_service.py:49-51 | The uid is a truthy id; else the payload's project number, else the project's own project number as `str` gives it, suffixed with "-" and the user id; else "quote-" and the user id |
| QuotesService.UidOf | app/services/quotes_service.py:49-51 | No contract of its own; `UidOfSpec` states the uid it computes |
| QuotesService.ProjectNumber | app/services/quotes_service.py:50 | No contract of its own; `UidOfSpec` states that the payload's number is used first, then the project's, then "quote" |
| QuotesService.PruneUidMatches | app/services/quotes_service.py:122 | The uid the prune recomputes is the uid the upsert used |
| QuotesService.PruneUid | app/services/quotes_service.py:122 | No contract of its own; `PruneUidMatches` states that it equals `UidOf` |
| QuotesService.PruneIdsAreUpserted | app/services/quotes_service.py:122-128 | The set of uids the prune keeps is exactly the set of uids upserted |
| QuotesService.QuoteRowOf | app/services/quotes_service.py:100-119 | The row has the computed uid, the caller as creator and updater, and the whole dump as its full quote |
| QuotesService.QuoteCurrency | app/services/quotes_service.py:112 | The currency is the quote's, else the project's, else "CAD", and is never falsy |
| QuotesService.QuoteStatus | app/services/quotes_service.py:115 | The status is the quote's when truthy and "draft" otherwise |
| QuotesService.QuotePhases | app/services/quotes_service.py:113-114 | Phases and phase settings come from the project, defaulting to an empty list and an empty object |
| QuotesService.QuoteProjectFirst | app/services/quotes_service.py:104-111 | Client category, brief date and budget prefer the project's values and fall back to the quote's; the client category ends in "" when neither is truthy |
| QuotesService.FullQuoteOr | app/services/quotes_service.py:142 | A listed quote is its stored object when truthy, otherwise an empty object |
| QuotesService.SavedQuoteListedVerbatim | app/services/quotes_service.py:118-142 | A saved quote is listed back exactly as it was submitted |
| QuotesService.UpsertQuotes | app/services/quotes_service.py:53-120 | Upserting leaves exactly the old uids plus the submitted ones |
| QuotesService.UpsertedQuote | app/services/quotes_service.py:53-99 | No contract of its own; `UpsertQuoteEffect` states the quote it yields |
| QuotesService.UpsertQuote | app/services/quotes_service.py:53-99 | No contract of its own; `UpsertQuoteEffect` states its effect |
| QuotesService.UpsertQuoteEffect | app/services/quotes_service.py:53-99 | The uid is present afterwards and no other uid changes; a new uid is stored as written at `now`; an existing uid keeps its creator and creation time, takes every other column from the new row, and is updated at `now` |
| QuotesService.PruneQuotes | app/services/quotes_service.py:123-128 | No contract of its own; `QuotesReplacedOwnership` and `QuotesReplacedKeepsOthers` state which quotes the prune leaves |
| QuotesService.DeleteQuotesOf | app/services/quotes_service.py:129-130 | No contract of its own; `QuotesReplacedEmpty` makes it replacing with no quotes, for which `QuotesReplacedOwnership` and `QuotesReplacedKeepsOthers` state that exactly the caller's quotes go |
| QuotesService.QuotesReplaced | app/services/quotes_service.py:45-130 | No contract of its own; the `QuotesReplaced*` lemmas state what replacing leaves |
| QuotesService.DeleteQuotesOfIsPruneNothing | app/services/quotes_service.py:123-130 | The empty-submission delete removes what pruning with an empty keep-set would |
| QuotesService.ProjectPrefix | app/services/quotes_service.py:47-50 | The first quote with a non-object project is where the loop fails; every earlier quote has a project |
| QuotesService.QuoteRowsOf | app/services/quotes_service.py:53-120 | Each submitted quote maps to its row, in order |
| QuotesService.QuotesReplacedEmpty | app/services/quotes_service.py:129-130 | Replacing with no quotes deletes exactly the caller's quotes |
| QuotesService.UpsertQuotesAt | app/services/quotes_service.py:81-99 | An unsubmitted quote is untouched; a submitted uid keeps its creator and creation time and is updated by the caller now |
| QuotesService.UpsertQuotesLastWins | app/services/quotes_service.py:81-98 | The last submission of a uid decides its row: the upsert of that submission over the quote as it was before the loop |
| QuotesService.QuotesReplacedOwnership | app/services/quotes_service.py:45-130 | After a replace, the caller owns a uid exactly when it was submitted and was new or already the caller's |
| QuotesService.QuotesReplacedVisible | app/services/quotes_service.py:45-130 | Every submitted quote is present, last updated by the caller now, so it is listed for the caller |
| QuotesService.QuotesReplacedKeepsOthers | app/services/quotes_service.py:122-128 | Other users' quotes survive, unchanged unless resubmitted |
| QuotesService.QuotesReplacedLastWins | app/services/quotes_service.py:81-98 | A uid submitted more than once holds the upsert of its last submission |
| QuotesService.UpsertQuoteConsistent | app/services/quotes_service.py:81 | An upsert on the uid conflict target keeps every quote under its own uid |
| QuotesService.PruneQuotesConsistent | app/services/quotes_service.py:123-130 | Pruning and deleting keep every quote under its own uid |
| QuotesService.UpsertQuotesEach | app/services/quotes_service.py:47-120 | The loop stops at the first quote without a usable project, having upserted the rows of the quotes before it |
| QuotesService.PruneUnsubmittedQuotes | app/services/quotes_service.py:122-130 | Removes exactly the caller's quotes whose uid was not submitted |
| QuotesService.ReplaceQuotes | app/services/quotes_service.py:45-130 | The caller is ensured; it fails exactly when some project is not an object, after the earlier upserts; otherwise the table becomes the upserts followed by the prune |
| QuotesService.SortNewestFirst | app/services/quotes_service.py:138 | Sorting by update time descending keeps the same uids and lists the newest first |
| QuotesService.GetQuotesForUser | app/services/quotes_service.py:133-142 | Lists each quote the caller created or last updated once, newest first, as its full quote or an empty object |
| OverheadService.ActorPrecedence | app/services/overhead_service.py:96-97 | The actor, when given, is the updater; the payload's creator, when given, is the creator |
| OverheadService.CreatorOf | app/services/overhead_service.py:96 | No contract of its own; `ActorPrecedence` states it |
| OverheadService.UpdaterOf | app/services/overhead_service.py:97 | No contract of its own; `ActorPrecedence` states it |
| OverheadService.InsertRow | app/services/overhead_service.py:60-98 | The row takes the given id or a fresh one, the owner, the time now, and the creator and updater by precedence |
| OverheadService.UpsertedEmployee | app/services/overhead_service.py:70-81 | On a conflict the row keeps its owner, creator and creation time, and takes every other column from the new row |
| OverheadService.UpsertEmployee | app/services/overhead_service.py:56-82 | No contract of its own; `UpsertEmployeeEffect` states its effect |
| OverheadService.UpsertEmployeeEffect | app/services/overhead_service.py:56-82 | The id is present afterwards and no other id changes; a new id is stored as written; an existing id holds the conflict resolution of the new row against the old one |
| OverheadService.InsertRows | app/services/overhead_service.py:56-98 | One row per submitted employee, in order |
| OverheadService.UpsertEmployees | app/services/overhead_service.py:56-99 | Upserting leaves exactly the old ids plus the written ids |
| OverheadService.SavedAt | app/services/overhead_service.py:82-101 | The returned row of the i-th upsert has that upsert's id |
| OverheadService.ToEmployee | app/services/overhead_service.py:40-41 | The employee carries its row's id and owner |
| OverheadService.ResaveListedEmployee | app/services/overhead_service.py:53-101 | Saving a listed employee again keeps its row except for the update time and updater |
| OverheadService.SavedAtInsertsNew | app/services/overhead_service.py:82-101 | A new id is inserted as written; an existing id keeps its owner and creation time |
| OverheadService.FreshIdInserts | app/services/overhead_service.py:66 | An employee without an id gets the fresh id as a new row owned by the caller |
| OverheadService.UpsertEmployeesSnoc | app/services/overhead_service.py:56-101 | Each step of the loop is one upsert, and its returned row is the row stored |
| OverheadService.UpsertEmployeeConsistent | app/services/overhead_service.py:70 | An upsert on the id conflict target keeps every row under its own id |
| OverheadService.UpsertEach | app/services/overhead_service.py:56-101 | The table becomes the upserts in order, and each returned row is the row stored by its upsert |
| OverheadService.UpsertOverheadEmployees | app/services/overhead_service.py:53-102 | The table becomes the upserts of the submitted employees, and each result is its stored row as an employee |
| OverheadService.SortRoster | app/services/overhead_service.py:47 | Sorting by department, then name, keeps the same ids in that order |
| OverheadService.RosterIds | app/services/overhead_service.py:44-47 | Sorting the caller's ids by department and name keeps exactly the caller's ids |
| OverheadService.OwnRows | app/services/overhead_service.py:46-47 | Holds exactly the rows whose owner is the caller, unchanged |
| OverheadService.Roster | app/services/overhead_service.py:44-50 | The ids are exactly the caller's, once each, ordered by department and then name, and each employee is its row |
| OverheadService.ListOverheadEmployees | app/services/overhead_service.py:44-50 | Lists each of the caller's rows once, ordered by department and then name |
| OverheadService.DeleteEmployee | app/services/overhead_service.py:105-107 | Removes the id only when it belongs to the caller, and touches nothing else |
| OverheadService.DeleteOverheadEmployee | app/services/overhead_service.py:105-107 | The table becomes `DeleteEmployee` of the old table |
| StorageService.ReservedKeysDistinct | app/services/storage_service.py:14-16 | The three reserved keys are different |
| StorageService.Shown | app/services/storage_service.py:76-80 | null is no value, a string is returned raw, any other value is returned as its serialisation |
| StorageService.ValidEntries | app/services/storage_service.py:52-57 | Invalid items are skipped, so no more entries than items result |
| StorageService.ValidEntriesFrom | app/services/storage_service.py:53-57 | Every kept entry is the validation of some item |
| StorageService.ValidEntriesAppend | app/services/storage_service.py:53-57 | The entries of two lists in a row are the entries of the first followed by those of the second, so the order of the items is kept |
| StorageService.ValidEntriesKeepsValid | app/services/storage_service.py:53-57 | Every item that validates is kept |
| StorageService.ValidEntriesAllValid | app/services/storage_service.py:53-57 | When every item validates, the entries are their validations, in order |
| StorageService.ValidEntriesNoneValid | app/services/storage_service.py:53-57 | When no item validates, there are no entries |
| StorageService.ParsePipelineValue | app/services/storage_service.py:40-58 | The entries are the valid entries of the list the value parses to |
| StorageService.GenericValue | app/services/storage_service.py:70-80 | A missing key gives no value; a present key gives its shown value |
| StorageService.GetStorageValue | app/services/storage_service.py:61-80 | The pipeline key gives the pipeline listing; the quotes key gives the caller's quote listing; any other key gives the stored value |
| StorageService.QuoteDumps | app/services/storage_service.py:90-91 | Each raw quote becomes its validated dump, in order |
| StorageService.SetReserved | app/services/storage_service.py:84-93 | Saving the pipeline key replaces the caller's entries and leaves quotes alone; on "projectCode is required" the entries before the first one without a code stay upserted. Saving the quotes key gives "ValidationError" and writes nothing when a quote does not validate; otherwise it replaces the caller's quotes, and on "AttributeError" the quotes before the first bad project stay upserted; it leaves the pipeline alone |
| StorageService.SetPipelineValue | app/services/storage_service.py:84-87 | The pipeline key replaces the caller's entries with the valid ones, succeeding exactly when each has a code; on failure the error is "projectCode is required" and the entries before the first one without a code stay upserted |
| StorageService.SetQuotesValue | app/services/storage_service.py:89-93 | The quotes key gives "ValidationError" and writes nothing unless every quote validates; then it replaces the caller's quotes, or gives "AttributeError" with the quotes before the first bad project upserted |
| StorageService.SetGeneric | app/services/storage_service.py:95-106 | null is refused and changes nothing; any other value is stored under the caller and key |
| StorageService.SetGenericFrame | app/services/storage_service.py:96-105 | Storing one key changes no other user's or key's value and reads back as stored |
| StorageService.SetStorageValue | app/services/storage_service.py:83-106 | Reserved keys leave the key/value store alone: the pipeline key replaces the caller's entries with the valid ones, succeeding exactly when each has a code, and leaves quotes alone; the quotes key writes nothing unless every quote validates, then replaces the caller's quotes, and leaves the pipeline alone; a failed replace leaves the upserts of the items before the failing one, with the error text stated; other keys touch only the key/value store; a success returns the value |
| StorageService.DeleteStorageValue | app/services/storage_service.py:109-118 | The pipeline key deletes the caller's entries, the quotes key deletes the caller's quotes, any other key deletes that one stored value; a reserved key also ensures the caller as a user with the placeholder e-mail; nothing else changes |
| StorageService.GenericValues | app/services/storage_service.py:122-128 | Holds exactly the caller's stored keys, each with its shown value |
| StorageService.ChangelogUser | app/services/storage_service.py:137 | The changelog user is the stored non-empty "email" string, and the user id when no e-mail is stored |
| StorageService.ChangelogUserOf | app/services/storage_service.py:137 | No contract of its own; `ChangelogUserAfterOverrides` states that it gives the stored e-mail of `ChangelogUser` |
| StorageService.ListTables | app/services/storage_service.py:121-135 | Holds the caller's generic values, the pipeline listing and the caller's quote listing, and leaves the changelog user as stored |
| StorageService.ChangelogUserAfterOverrides | app/services/storage_service.py:128-137 | Writing the reserved listings into the result does not change which e-mail the changelog uses |
| StorageService.ListingWithChangelog | app/services/storage_service.py:121-140 | Adding the changelog to the tables' listing keeps the generic values and both table listings |
| StorageService.ListStorageValues | app/services/storage_service.py:121-140 | Holds the caller's stored values plus the pipeline listing, the quote listing and the changelog derived from the listed entries |
| Auth.CleanPrivateKey | app/core/auth.py:20-26 | An empty key is kept; otherwise escaped newlines become newlines, quotes are dropped and the result is stripped |
| Auth.CleanedKeyShape | app/core/auth.py:20-26 | A cleaned key holds no quote and has no surrounding whitespace |
| Auth.CleanPlainKey | app/core/auth.py:20-26 | A key that is already clean is unchanged |
| Auth.ChooseCredential | app/core/auth.py:28-40 | A service-account credential is used exactly when project id, client e-mail and cleaned key are all non-empty; otherwise application-default credentials |
| Auth.BearerToken | app/core/auth.py:61-64 | A missing header, or one not starting with "Bearer ", is 401; otherwise the token is the text after the prefix with every later "Bearer " removed too, never longer than that text |
| Auth.BearerTokenIsRest | app/core/auth.py:61-64 | For a token without "Bearer " inside, the prefixed header gives back exactly that token |
| Auth.ClampRole | app/core/auth.py:55-56 | "admin" and "pm" are kept and every other role becomes "user"; a list or object role fails |
| Auth.EmailClaim | app/core/auth.py:57 | A null e-mail is absent; a string is kept; any other value fails validation |
| Auth.DecodeToken | app/core/auth.py:45-57 | A token that does not verify is 401; otherwise the user carries the claims' uid, e-mail and clamped role |
| Auth.CurrentUser | app/core/auth.py:60-65 | Bearer extraction then decoding; an authenticated user's role is admin, pm or user |
| Auth.RequireAdmin | app/core/auth.py:68-71 | The user passes unchanged exactly when their role is "admin"; otherwise 403 |
| Auth.AdminIffAdminClaim | app/core/auth.py:55-71 | The admin check passes exactly when the token's role claim is "admin" |
| Config.DbHost | app/core/config.py:40-44 | A Cloud SQL connection name gives its socket directory, else the configured host, else 127.0.0.1 |
| Config.DbPort | app/core/config.py:46 | A missing or zero port gives 5432; the port is never 0 |
| Config.BuildDbUrl | app/core/config.py:33-50 | An explicit URL wins; otherwise there is no URL exactly when no database name is set |
| Config.DbUrlShape | app/core/config.py:47-50 | An assembled URL starts with the scheme, credentials and host, and ends with the port and database name |
| Config.CredentialsSplit | app/core/config.py:47-50 | Splitting the URL's authority at '@' and then ':' gives back a user and password free of both |
| Config.UserInfoRecoverable | app/core/config.py:47-50 | Without ':' or '@' in them, the user and password are read back from the URL |
| Config.StrippedNonEmpty | app/core/config.py:65 | Never more pieces are kept than given |
| Config.StrippedNonEmptyAllClean | app/core/config.py:65 | Every kept piece is non-empty and has no surrounding whitespace |
| Config.StrippedNonEmptyKeepsOut | app/core/config.py:65 | Stripping introduces no new character |
| Config.StrippedNonEmptyClean | app/core/config.py:65 | Clean pieces are kept as they are |
| Config.CorsOrigins | app/core/config.py:63-65 | Each origin read from the environment is non-empty, stripped and free of commas |
| Config.CorsOriginsRoundTrip | app/core/config.py:63-65 | Joining clean origins with commas and reading them back gives the same list |
| Config.ParseEnv | app/core/config.py:61-66 | Only a string `cors_origins` changes, into its origin list; every other setting is kept |
| App.Dedupe | app/main.py:38 | The result has every element of the input, nothing else, and no duplicates |
| App.DedupeOrder | app/main.py:38 | The result lists elements in the order of their first occurrence |
| App.DedupeDistinct | app/main.py:38 | A list without duplicates is unchanged |
| App.DedupeAppend | app/main.py:38 | Appending elements only extends the result |
| App.DefaultsDistinct | app/main.py:24-28 | The built-in origins are distinct |
| App.AllowedOrigins | app/main.py:30-39 | A configured "*" allows every origin; otherwise the configured origins and then the built-in ones, deduplicated; the Cloud Run pattern is always attached |
| App.MergedOrigins | app/main.py:33-39 | Without "*", exactly the configured and built-in origins are allowed, each once, with the configured ones first in their own order |
| App.NoConfiguredOrigins | app/main.py:24-39 | With nothing configured, exactly the built-in origins are allowed, in their order |
| PipelineRouter.EntryData | app/routers/pipeline.py:27-30 | An empty body is 400 "entry is required"; a truthy `entry` member is the entry; otherwise the whole body is |
| PipelineRouter.RequestEntry | app/routers/pipeline.py:27-32 | The entry is the validation of the body's entry data; a body that fails validation is an error |
| PipelineRouter.YearSuffix | app/routers/pipeline.py:34 | The year suffix is two digits whose value is the year modulo 100 |
| PipelineRouter.CreatePipelineEntry | app/routers/pipeline.py:25-38 | An invalid body changes nothing; an entry without a code gets the next code for the current year; the entry is upserted for the caller and the stored entry is returned |
| PipelineRouter.UpdatePipelineEntry | app/routers/pipeline.py:41-53 | It fails with 400 exactly when the entry has no code, and then changes nothing; otherwise the entry is upserted for the caller and the stored entry is returned |
| PipelineRouter.RemovePipelineEntry | app/routers/pipeline.py:56-62 | A falsy code is 400; a string code deletes that row and answers `{"ok": true}`; any other code is a 500 that changes nothing |
| PipelineRouter.ListPipeline | app/routers/pipeline.py:18-22 | The pipeline listing, plus its changelog for the caller's e-mail or uid, newest first |
| PipelineRouter.NextCodeResponse | app/routers/pipeline.py:65-67 | The response is `{"projectCode": code}` with the next code for the year |

## Behaviour worth knowing

These follow from the code as written. They are modelled as they are and
are not claimed as defects:
- A pipeline row re-saved from its listed entry moves its start and end
  dates to the first and last day of the month.
  - The reason: the listing returns the month label "Mon YYYY" as `startMonth`.
  - `RowRoundTrip` states which fields survive.
- `get_next_project_code` compares codes as strings.
  - A code such as `PABCD-24` that is greatest under that order makes numbering restart at `P0001` (`CodeAfterRestart`), so an existing code can be proposed again.
  - Beyond 9999 the next code has five digits, and `P10000-24` no longer matches the four-character pattern.
- Overhead upserts match on the id alone, so a caller can update another user's employee.
  - That row keeps its owner (`UpsertedEmployee`).
- Deleting the reserved pipeline or quotes key inserts the caller as a user with the placeholder e-mail.
- The `/pipeline` create route reads a request body without `entry` as the entry itself.
- A non-string `projectCode` in a delete body reaches the database.
  - It is modelled as a server error that changes nothing.
- `GET /pipeline/next-code` declares no authentication dependency, and the routers are registered without one.
  - Any caller, signed in or not, gets the next code, which is derived from every stored project code (`PipelineRouter.NextCodeResponse` takes no caller).
- The settings hook is written `parse_env(s)` and calls `env_settings(s)` (app/core/config.py:61-62).
  - pydantic-settings calls its settings sources with no arguments, so as written this hook would raise a TypeError when `Settings()` is built. This is read from the library's documented calling convention, not observed.
  - The model does not depend on it: `Config.ParseEnv` takes what the environment source read as a parameter.

## Left out

- I/O and infrastructure:
  - The connection pool, the application lifespan, table creation and the `*_table_ready` flags are left out. They do not change what a request computes.
  - Concurrency between requests is not modelled. Each service call is one atomic sequence of map updates, and one `now` serves the whole call.
- Time and identifiers: the clock, UUID generation and the current UTC year are parameters.
- Database behaviour:
  - Column types and adaptation are left out on both sides. On reading, a date column comes back as a `date` object and amounts as numbers. On writing, values pass into their columns as the Python values: psycopg's reading of a `str` sent to a `jsonb` column as JSON text, and the `Jsonb` wrapper a `dict` would need, are not modelled.
  - `ORDER BY` ties are left out. Equal keys keep their map-key order, and collation is code-point order.
  - Rows with a NULL `quote_uid` cannot arise through the modelled operations.
- JSON and validation:
  - `json.loads`, `json.dumps`, `str()` of a non-string value and the pydantic validators of `PipelineEntry` are parameters.
  - The dumped storage values are symbolic (`StorageService.Value`) rather than rendered text.
- Text:
  - Unicode is not modelled: whitespace, digits and case folding are ASCII only.
  - Calendar.FromIsoFormat: `fromisoformat` is modelled on `YYYY-MM-DD` alone or followed by one separator and `HH[:MM[:SS]]`. Any other text is read as a ValueError (None), including text Python reads: a fraction of a second or a UTC offset, as in `2024-01-15T10:30:00+00:00`, or `…T10:30:00.000Z` from Python 3.11 on. For such text the model's `_parse_date` and the quotes `_normalize_date` give None where Python gives the date, and its `_normalize_month` returns the trimmed text where Python gives the `Mon YYYY` label.
  - `strptime` is modelled on the English month names.
- Auth:
  - Firebase Admin initialisation, `lru_cache` and the network call that verifies a token are left out. Verification is a parameter returning the claims or nothing.
  - The exceptions inside it all become 401, as in the source.
- Config:
  - pydantic-settings' ordering of environment, `.env` file and defaults is left out. The settings arrive as values.
  - Config.BuildDbUrl: only unescaped assembly is stated, because the source does not escape the password. `UserInfoRecoverable` covers credentials without `:` or `@`.
  - `Config.ParseEnv` takes what the environment-variable source read as a parameter. Reading the environment variables is not modelled. The `.env` (dotenv) source, which pydantic-settings consults after this hook and which the hook does not wrap, is not modelled either.
- PipelineService.MatchesCodePattern: the year is compared as plain text. The create route passes a two-digit `strftime("%y")` year, but `GET /pipeline/next-code?year=` passes the query text unchecked. A year holding `%`, `_` or `\` is therefore not modelled: `LIKE` reads them as wildcards or as its escape character. For example, with the code P0007-24 stored, the year `%` gives P0008-% in the source and P0001-% in the model.
- App: the health endpoint and router registration carry no logic and are left out. CORS middleware matching of the regular expression is left out; the pattern is kept as text.

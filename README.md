# Exercise tracker: log retrieval, in Dafny

This project models the core of a small exercise-tracking web service. Clients
register a username (`POST /api/users`), record exercises for that user
(`POST /api/users/:_id/exercises`), and read back a log of them
(`GET /api/users/:_id/logs?from=&to=&limit=`). The log handler comes in two
variants, and the model covers both:

- **In memory** (`routes/userRoutes.js`). All of the user's rows are fetched.
  They are sorted in place by date and kept when their day lies inside the
  inclusive window `[from, to]`. `count` is taken next. Only then is the list
  cut with `slice(0, parseInt(limit))` and projected to
  `{description, duration, date}`. This is module `MemoryLog`. The in-place
  sort is a stable insertion sort over an `array`, proved against the
  functional specification `SortByDate`.
- **In SQL** (`index.js`; the same text is in `middlewares/validation.js`).
  The date window and the cap are appended to the query text one clause at a
  time, and one parameter is pushed for each clause. The response counts the
  rows the query returned. This is module `SqlLog`. The builder is a method
  with the source's `query +=` / `params.push` steps. It is proved to end with
  as many `?` placeholders as parameters, with each clause present exactly
  when its field is truthy.

Around the log handlers the model covers these rules:
- the user lookup: a database error gives 500, and a missing user gives 404
  with no further query (`Records`);
- the mapping of user-insert errors: a message containing `UNIQUE` gives 400,
  and any other error gives 500 (`Users`);
- the date an exercise is stored with, with and without the `Date.parse`
  check (`Exercises`).

Dates are integers. An instant is a count of milliseconds in local time. A day
is that count divided by 86 400 000. `setHours(0,0,0,0)` and
`setHours(23,59,59,999)` become the first and last millisecond of the day.
`toDateString()` gives the day number, or the "Invalid Date" text. An Invalid
Date compares false with everything, as NaN does. A request field that becomes
a `Date` is `Absent` (missing or empty, so falsy), `Unparseable` (non-empty,
with `Date.parse` giving NaN) or `Parsed(instant)`. `limit` is `NoLimit` (falsy)
or `Limit(parseInt(limit))`, where `parseInt` gives an integer or NaN.
`Array.prototype.slice(0, end)` is modelled with its exact rules: NaN counts as
0, a negative end counts from the back, and the result is clamped to the array.

The database, the clock and the date parser are inputs. A handler that calls
the database is a function or method that returns a `Step`: either the
response, or the query with its parameters. The answer to that query is the
argument of the next callback.

Three behaviours of the code are easy to misread; the model follows the code:
- the in-memory variant counts before the cap, and the SQL variant counts
  after it (`SqlLog.CountSemanticsDiffer`);
- in the in-memory variant, a `limit` of `"0"` or a non-numeric `limit`
  gives an empty log, and a negative one drops rows from the end; none of
  these means "no cap" (`MemoryLog.CapFacts`);
- a non-empty `from` or `to` that does not parse makes the in-memory window
  empty (`MemoryLog.EmptyWindows`); it is not reported as an error.

## Model

| member | source | states |
|---|---|---|
| JsValues.SliceFromStart | routes/userRoutes.js:79 | `slice(0, n)` returns a prefix: all of `min(n, len)` rows for n ≥ 0, none for NaN, and `len + n` rows (at least none) for negative n |
| JsValues.Includes | routes/userRoutes.js:18 | `message.includes(marker)` as a scan from the left; what it means is stated by `JsValues.IncludesIff` |
| JsValues.IncludesIff | routes/userRoutes.js:18 | the left-to-right `includes` scan succeeds exactly when the substring occurs at some position |
| Dates.ToDateString | routes/userRoutes.js:32 | the text is "Invalid Date" exactly for the Invalid Date; otherwise it names the day that contains the instant |
| Dates.NewDate | routes/userRoutes.js:69-70 | `new Date(field)`: a parsed field gives its instant, an unparseable one the Invalid Date (index.js:111 and index.js:116 build the same dates); properties through `Dates.ToDateString`, `Dates.SetStartOfDay` and `Dates.SetEndOfDay` |
| Dates.SetStartOfDay | routes/userRoutes.js:69 | `setHours(0,0,0,0)` keeps the day, moves to its first millisecond and keeps an Invalid Date invalid |
| Dates.SetEndOfDay | routes/userRoutes.js:70 | `setHours(23,59,59,999)` keeps the day, moves to its last millisecond and keeps an Invalid Date invalid |
| Dates.DayOfMidnight | routes/userRoutes.js:73 | re-reading a stored day text gives the day's midnight, whose day and text are the same day |
| Dates.MidnightFromStart | routes/userRoutes.js:69-74 | a stored day's midnight is at or after the start of `from`'s day exactly when the day is not earlier |
| Dates.MidnightBeforeEnd | routes/userRoutes.js:70-74 | a stored day's midnight is at or before 23:59:59.999 of `to`'s day exactly when the day is not later |
| Dates.AtLeast | routes/userRoutes.js:74 | `logDate >= fromDate`: false when either side is the Invalid Date, else the order of the instants; properties in `Dates.MidnightFromStart` |
| Dates.AtMost | routes/userRoutes.js:74 | `logDate <= toDate`: false when either side is the Invalid Date, else the order of the instants; properties in `Dates.MidnightBeforeEnd` |
| Records.OnUserLookup | routes/userRoutes.js:60-62 | a lookup error gives 500 and no user gives 404 `User not found`, both without the next query; a found user lets the handler go on |
| Records.ToEntry | routes/userRoutes.js:85-89 | the `map` callback: one row's description, duration and date text; properties in `Records.Project` |
| Records.Project | routes/userRoutes.js:85-89 | the log has one entry per row, in order, carrying that row's description, duration and date |
| Records.ProjectPrefix | routes/userRoutes.js:79-89 | projecting the first k rows gives the first k entries of the projection |
| Users.OnUserInsert | routes/userRoutes.js:15-24 | no error gives 200 with the username and new id; an error gives 400 `Username must be unique` exactly when its message contains `UNIQUE`, and 500 `Database error` otherwise; index.js:39-50 and middlewares/validation.js:15-24 have the same branches |
| Users.DuplicateUsernameIsRejected | test/app.test.js:50-53 | SQLite's message for a duplicate username gives 400 |
| Exercises.CheckedExerciseDate | routes/userRoutes.js:31 | the date guarded by `Date.parse`: the given instant when the field parses, else now; properties in `Exercises.CheckedDateIsDay` and `Exercises.DateRulesAgreeUnlessUnparseable` |
| Exercises.UncheckedExerciseDate | index.js:73 | the unguarded date: `new Date(date)` for a non-empty field, else now (middlewares/validation.js:31 is the same rule); properties in `Exercises.UncheckedDateText` |
| Exercises.CheckedDateIsDay | routes/userRoutes.js:31-32 | with the `Date.parse` check the stored text is the given day when it parses and today otherwise, never "Invalid Date" |
| Exercises.UncheckedDateText | index.js:73-74 | without the check, "Invalid Date" is stored exactly when a non-empty date does not parse; a parsed date gives its day and an absent one today |
| Exercises.DateRulesAgreeUnlessUnparseable | middlewares/validation.js:31-32 | the checked and unchecked date rules give the same `Date` exactly when the field is not an unparseable non-empty text |
| Exercises.PostExerciseOnUser | index.js:76-82 | the insert is issued exactly when the user is found, with the id, description, parsed duration and date text as its parameters; a lookup error gives 500 and a missing user 404 |
| Exercises.PostExerciseOnInsert | index.js:83-92 | an insert error gives 500; otherwise 200 echoes the user id as `_id`, the username, description, parsed duration and stored date text |
| Exercises.StoredMatchesEchoed | routes/userRoutes.js:38-50 | the duration and date bound to the insert are the ones echoed in the response |
| MemoryLog.Compare | routes/userRoutes.js:67 | the comparator `new Date(a.date) - new Date(b.date)`; its sign is stated by `MemoryLog.CompareIsByDay` |
| MemoryLog.SortByDate | routes/userRoutes.js:67 | the stable sort of the fetched rows, as a value; properties in `MemoryLog.SortByDateFacts` and `MemoryLog.StableSortIsSortByDate`, and `MemoryLog.SortInPlace` is proved to compute it |
| MemoryLog.CompareIsByDay | routes/userRoutes.js:67 | the comparator's sign is the order of the two rows' days |
| MemoryLog.SortByDateFacts | routes/userRoutes.js:67 | the stable sort by date is ordered by date and is a permutation of its input, and each day's rows stay in store order |
| MemoryLog.SortedUnique | routes/userRoutes.js:67 | two date-ordered sequences with the same rows on every day, in the same order, are equal |
| MemoryLog.StableSortIsSortByDate | routes/userRoutes.js:67 | any date-ordered arrangement that keeps each day's rows in store order is exactly `SortByDate` of the input |
| MemoryLog.SortInPlace | routes/userRoutes.js:67 | the in-place sort leaves the array holding `SortByDate` of its old contents |
| MemoryLog.InsertAt | routes/userRoutes.js:67 | one pass of the insertion sort inserts `a[i]` into the sorted run `a[..i]` and leaves the rest of the array alone |
| MemoryLog.FromBound | routes/userRoutes.js:69 | `fromDate`: none for a falsy `from`, else the start of its day; properties in `MemoryLog.KeepIffInDayWindow` |
| MemoryLog.ToBound | routes/userRoutes.js:70 | `toDate`: none for a falsy `to`, else the last millisecond of its day; properties in `MemoryLog.KeepIffInDayWindow` |
| MemoryLog.KeepDay | routes/userRoutes.js:73-74 | the filter callback on a row's day; properties in `MemoryLog.KeepIffInDayWindow` and `MemoryLog.EmptyWindows` |
| MemoryLog.Filter | routes/userRoutes.js:72-75 | `logs.filter(...)`; properties in `MemoryLog.FilterMembers`, `MemoryLog.FilterSubsequence`, `MemoryLog.FilterOnDay` and `MemoryLog.FilterSorted` |
| MemoryLog.Windowed | routes/userRoutes.js:67-75 | the sorted rows filtered by both bounds; properties in `MemoryLog.WindowFacts` |
| MemoryLog.KeepIffInDayWindow | routes/userRoutes.js:69-75 | the callback keeps a row exactly when its day is not before `from`'s day and not after `to`'s day; a missing bound admits every day, and an unparseable one none |
| MemoryLog.FilterMembers | routes/userRoutes.js:72-75 | the filter keeps exactly the rows that pass the callback |
| MemoryLog.FilterSubsequence | routes/userRoutes.js:72-75 | the filtered list is an order-preserving subsequence of its input |
| MemoryLog.FilterOnDay | routes/userRoutes.js:72-75 | each day's rows are all kept, in order, or all dropped |
| MemoryLog.FilterSorted | routes/userRoutes.js:72-75 | filtering a date-ordered list leaves it date-ordered |
| MemoryLog.FilterWithoutBounds | routes/userRoutes.js:69-75 | with neither `from` nor `to` the filter keeps every row in order |
| MemoryLog.EmptyWindows | routes/userRoutes.js:69-75 | a window whose `from` day is after its `to` day keeps nothing, and so does an unparseable bound |
| MemoryLog.Cap | routes/userRoutes.js:79 | `limit ? filtered.slice(0, parseInt(limit)) : filtered`; properties in `MemoryLog.CapFacts` |
| MemoryLog.WindowFacts | routes/userRoutes.js:67-75 | the window is date-ordered, is a subsequence of the sorted rows, holds exactly the fetched rows whose day is in range, keeps each day's store order, and is all the sorted rows when no bound is given |
| MemoryLog.CapFacts | routes/userRoutes.js:79 | the cap is a prefix: the whole list without `limit`, the first min(n, count) rows for n ≥ 0, nothing for NaN, and all but the last -n rows for negative n |
| MemoryLog.CountIsBeforeCap | routes/userRoutes.js:77-84 | `count` is the size of the window whatever the limit; the log is never longer, is the whole window without `limit`, and has min(n, count) entries for a limit n ≥ 0 |
| MemoryLog.LogIsPrefixOfWindow | routes/userRoutes.js:79-89 | the log is the projection of a prefix of the window |
| MemoryLog.CountedBeforeCapExample | routes/userRoutes.js:64-90 | rows stored as April 1, 3, 2 with window April 1 to 2 and limit 1 give count 2 and a log of April 1 only |
| MemoryLog.LogBody | routes/userRoutes.js:77-90 | the response body: id, username, the window's size as `count` and the projected capped window; properties in `MemoryLog.CountIsBeforeCap` and `MemoryLog.LogIsPrefixOfWindow` |
| MemoryLog.LogsOnUser | routes/userRoutes.js:60-64 | the exercise rows query is issued, with the user id as its only parameter, exactly when the user is found; a lookup error gives 500 and a missing user 404 |
| MemoryLog.LogsOnRows | routes/userRoutes.js:64-91 | a fetch error gives 500; otherwise 200 with the count of the window and the projected, capped window of the sorted rows |
| SqlLog.LogQuery | index.js:106-124 | the final query text, as a value; properties in `SqlLog.QueryPlaceholders`, `SqlLog.QueryClauses` and `SqlLog.QueryEnding`, and `SqlLog.BuildLogQuery` is proved to build it |
| SqlLog.LogParams | index.js:107-123 | the final parameter list, as a value; properties in `SqlLog.LogParamsLength` and `SqlLog.ParamsOrder` |
| SqlLog.BuildLogQuery | index.js:106-124 | the builder ends with `LogQuery` and `LogParams`, and with as many placeholders as parameters; middlewares/validation.js:64-82 is the same builder |
| SqlLog.AssembledPlaceholders | index.js:106-124 | any query assembled from pieces with the real placeholder counts has one placeholder plus one per added optional clause |
| SqlLog.QueryPlaceholders | index.js:106-124 | the final query holds 1 + [from] + [to] + [limit] placeholders |
| SqlLog.LogParamsLength | index.js:107-124 | the parameter list has 1 + [from] + [to] + [limit] entries |
| SqlLog.PlaceholdersMatchParams | middlewares/validation.js:64-82 | the number of `?` in the final query equals the number of parameters |
| SqlLog.ParamsOrder | index.js:107-123 | the parameters start with the user id, followed by `from`'s date text when `from` is truthy, then `to`'s, with `parseInt(limit)` last when `limit` is truthy |
| SqlLog.AssembledClauses | index.js:106-117 | for pieces that differ in one character, each filter clause follows the query so far exactly when it was added |
| SqlLog.QueryClauses | index.js:106-117 | the query starts with the base query; ` AND date >= ?` follows it exactly when `from` is truthy; ` AND date <= ?` comes next exactly when `to` is |
| SqlLog.AssembledEnding | index.js:119-124 | for pieces whose last characters differ, the query ends with the LIMIT clause exactly when it was added, and with ORDER BY otherwise |
| SqlLog.QueryEnding | index.js:119-124 | ` ORDER BY date DESC` always follows the filter clauses; the query ends there without a limit, and ends with ` LIMIT ?` exactly when `limit` is truthy |
| SqlLog.LogsOnUser | index.js:102-126 | the step is the shared user-lookup callback (500 on error, 404 with no rows query for a missing user) whose continuation is the built query and parameters; the placeholders of that query match its parameters |
| SqlLog.LogsOnRows | index.js:126-138 | a fetch error gives 500; otherwise 200 echoes the user id as `_id` and the username, `count` equals the length of the log, which projects the returned rows in order; middlewares/validation.js:84-96 answers the same way |
| SqlLog.CountSemanticsDiffer | index.js:132 | when the limit cuts the window, the in-memory `count` exceeds the log's length while the SQL `count` equals it |

## Left out

- HTTP plumbing: Express setup, cors, static files, body parsing, the winston
  logger, the global error handler and the listener are not modelled. Status
  codes and JSON bodies are plain values.
- SQLite execution: the model builds the query text and parameters but does
  not evaluate them. Which rows `date >= ?`, `date <= ?` and
  `ORDER BY date DESC` select and in what order is not modelled; SQLite
  compares the stored `toDateString` texts as strings. The rows a query
  returns are an input.
- SqlLog.LogsOnRows: does not relate the returned rows to the window or the
  limit, because that depends on the query's evaluation left out above.
- JavaScript's date parser, `toDateString` text formatting, time zones and
  daylight-saving shifts are not modelled. A date field is given already
  classified as absent, unparseable or parsed, and a day is its number, not
  its text.
- Rows stored with the text "Invalid Date" can be written by the unchecked
  date rule. They are not modelled in the logs handlers: `Exercise.date` is
  always a valid day there.
- `parseInt` is taken as given (an integer or NaN), and its result is
  unbounded. Double-precision limits on huge values are not modelled.
- The SQL variant's `LIMIT ?` (index.js:121-124, middlewares/validation.js:79-82)
  is evaluated by SQLite, which is not modelled: there a negative bound means
  no cap and a NaN bound is expected to fail the query, which takes the 500
  branch; the model stops at the query text and its parameters.
- Dates.SetEndOfDay: does not model the range of a JavaScript `Date`
  (about ±8.64e15 ms). It stays `Valid` for every integer instant, where
  `setHours` gives an Invalid Date when the result leaves that range.
- Dates.SetStartOfDay: the same range is not modelled, for the same reason.
- Dates.NewDate: stays `Valid` for every integer, where `new Date(t)` beyond
  ±8.64e15 ms gives an Invalid Date.
- The GET `/api/users` listing (index.js:53-58) is not modelled. It is a
  single query with the same 500 error branch.
- The express-validator checks (index.js:29, index.js:61-63) are not
  modelled. Neither are the validator functions imported at
  routes/userRoutes.js:5-9; they are not part of this model.
- `this.lastID` is an input of `Users.OnUserInsert`, the id the store
  assigned.
- The current time is an input (`now`) of the exercise date rules.

# Habit, todo and task tracker — a Dafny model of its core

The modelled service keeps, for each registered user, three lists:

- todos: a title and nothing else;
- tasks: a title, an optional description, an optional due date and a status (`pending`, `in_progress`, `done`);
- habits: a name and an optional description, plus daily check-ins.

The model covers:

- the PostgreSQL repositories that read and change these tables, including the partial `UPDATE` whose `SET` list is built one field at a time;
- the services on top of them, which validate input, check ownership and turn a missing row into an error with an HTTP status;
- registration and login;
- the `Authorization: Bearer` middleware (section 2.1 of RFC 6750), with the scheme compared case-insensitively;
- the two Express error handlers;
- the calendar arithmetic of the habit dashboard: `YYYY-MM-DD` dates (section 4.1.2.2 of ISO 8601:2004), Monday week starts, week navigation, weekly counts and the optimistic check-in toggle.

How the model is laid out:

- Each table is a class:
  - `UserTable`, `TodoTable`, `TaskTable` and `HabitTable` hold their rows as sequences in insertion order.
  - Each also holds a counter for fresh ids and a `clock` that stands for the server's `NOW()`.
  - Each has an invariant `Valid()`: ids are ascending and rows are in creation order.
  - Habit check-ins are a map keyed by (habit id, day). This makes the `UNIQUE (habit_id, entry_date)` constraint structural.
- The repository methods change those fields. The service methods take a table and return a `Result`, which is a value or an `AppError(message, statusCode)`.
- A SQL `SET` list is text (`column = $n`). What the server makes of it is the function `Sql.Bind`.
- Calendar days are integers, day 0 being Thursday 1970-01-01. The Gregorian conversion is in `Calendar`, and ECMAScript's `MakeDay` rolls over out-of-range months and days.
- `String(n)`, `padStart(2, '0')`, `trim()`, `split(c)` and `toLowerCase()` (ASCII letters only) are modelled in `Decimal` and `Text`.

Three things enter as parameters:

- The current time is a `Day` or `Timestamp` parameter.
- Password hashing, hash comparison and token signing are function values in `AuthService.Crypto`. Token verification is a function `string -> Option<Payload>`.
- JavaScript's `new Date(string)` validity and the `::date` normalisation of the server are a function `string -> Option<Day>`.

Three edge cases are modelled as the code behaves:

- `listHabitsWithEntries` does not reject a non-positive `days`. The window is then empty (`HabitService.WindowLength`).
- `markHabitCompletion` treats an empty `date` like a missing one and uses today.
- The middleware treats an empty header like a missing one.

## Model

| member | source | states |
|---|---|---|
| Tables.Filter | src/db/todoRepository.ts:31-40 | a `WHERE` filter never returns more rows than the table holds |
| Tables.FilterSpec | src/db/todoRepository.ts:31-40 | a `WHERE` filter keeps the rows satisfying the condition, all of them, and only rows of the table |
| Tables.Reverse | src/db/todoRepository.ts:36 | reversal maps position i to position n-1-i |
| Tables.FilterChronological | src/db/todoRepository.ts:31-40 | filtering rows stored in creation order keeps creation order |
| Tables.FilterAscending | src/db/taskRepository.ts:72-88 | filtering keeps ids strictly ascending |
| Tables.ReverseContains | src/db/todoRepository.ts:36 | reversal keeps exactly the same elements |
| Tables.ReverseNewestFirst | src/db/todoRepository.ts:36 | reversing creation order gives `ORDER BY created_at DESC` |
| Tables.FilterAll | src/db/todoRepository.ts:35 | a filter every row satisfies changes nothing |
| Tables.FilterShrinks | src/db/todoRepository.ts:43-53 | a filter removes something iff some row fails it (a `DELETE` affects rows iff a row matched) |
| Tables.IndexWhere | src/db/taskRepository.ts:125-136 | the position of the first matching row, None iff no row matches |
| Tables.Find | src/db/taskRepository.ts:84-87 | `rowCount === 0 ? null : rows[0]`: None iff no row matches, otherwise a matching row of the table |
| Tables.SelectNewestFirst | src/db/todoRepository.ts:29-41 | `WHERE user_id = $1 ORDER BY created_at DESC` returns only that owner's rows, all of them, newest first |
| Tables.FilterAppend | src/db/todoRepository.ts:16-27 | inserting a row adds it to exactly the filters it satisfies |
| Tables.AppendAscending | src/db/todoRepository.ts:16-27 | inserting a row whose serial id exceeds every stored id keeps ids strictly ascending |
| Tables.AppendChronological | src/db/todoRepository.ts:16-27 | inserting a row stamped no earlier than every stored row keeps creation order |
| Decimal.DigitChar | frontend/src/screens/DashboardPage.tsx:19-20 | the character of a decimal digit is a digit |
| Decimal.DigitValue | frontend/src/screens/DashboardPage.tsx:25 | the value of a digit character is below 10 and written back as the same character |
| Decimal.NatText | frontend/src/screens/DashboardPage.tsx:18-21 | `String(n)` of a natural number is a non-empty digit run with no leading zero, "0" only for 0 |
| Decimal.ValueOfText | frontend/src/screens/DashboardPage.tsx:25 | `Number(String(n)) == n` |
| Decimal.LeadingDigitPositive | frontend/src/screens/DashboardPage.tsx:25 | digits not starting with '0' denote a positive number |
| Decimal.TextOfValue | frontend/src/screens/DashboardPage.tsx:18-21 | `String(Number(s)) == s` for digit runs without a leading zero |
| Decimal.PadStart2 | frontend/src/screens/DashboardPage.tsx:19-20 | `padStart(2, '0')` fills a shorter text with leading zeros to length 2 and leaves a longer one alone |
| Decimal.TwoDigitText | frontend/src/screens/DashboardPage.tsx:19-20 | a number below 100 is written as exactly two digits that read back as the number |
| Decimal.PaddedDigit | frontend/src/screens/DashboardPage.tsx:19-20 | a single digit gets one leading zero, which adds nothing to its value |
| Decimal.TwoDigitsRoundTrip | frontend/src/screens/DashboardPage.tsx:19-20 | any two digits are what `String(n).padStart(2, '0')` writes for their value |
| Decimal.FourDigitsValue | frontend/src/screens/DashboardPage.tsx:18 | four digits without a leading zero denote a year from 1000 to 9999 |
| Text.TrimStartBlank | src/services/todoService.ts:6 | stripping leading whitespace from a blank text leaves nothing |
| Text.TrimEndBlank | src/services/todoService.ts:6 | stripping trailing whitespace from a blank text leaves nothing |
| Text.TrimBlank | src/services/todoService.ts:6 | `!title.trim()` holds exactly for texts made only of whitespace |
| Text.TrimEnds | src/services/todoService.ts:9 | `trim()` yields a text that neither starts nor ends with whitespace |
| Text.TrimOfTrimmed | src/services/habitService.ts:29 | `trim()` leaves a text without surrounding whitespace unchanged |
| Text.TrimIdempotent | src/services/habitService.ts:29 | trimming twice is trimming once |
| Text.IndexOf | src/middleware/authMiddleware.ts:22 | the first occurrence of a character: it is there and not before |
| Text.Split | src/middleware/authMiddleware.ts:22 | `split(c)` gives at least one piece and no piece contains the separator |
| Text.JoinSplit | src/middleware/authMiddleware.ts:22 | joining the pieces of a split with the separator gives the text back |
| Text.SplitFirst | frontend/src/screens/DashboardPage.tsx:25 | the first piece of a split is everything before the first separator |
| Text.ToLower | src/middleware/authMiddleware.ts:24 | `toLowerCase()` restricted to ASCII: it keeps the length, lowers A to Z and leaves every other character |
| Text.LowerEqualsIgnoringCase | src/middleware/authMiddleware.ts:24 | `s.toLowerCase() === 'bearer'` iff s equals "bearer" ignoring ASCII case |
| Calendar.MonthLengths | frontend/src/screens/DashboardPage.tsx:29-33 | the days before each month grow by that month's length and sum to the year's length |
| Calendar.YearStartStep | frontend/src/screens/DashboardPage.tsx:29-33 | the next year starts a year's length later |
| Calendar.YearStartMonotone | frontend/src/screens/DashboardPage.tsx:29-33 | later years start later, by at least 365 days a year |
| Calendar.FindYear | frontend/src/screens/DashboardPage.tsx:18 | the year found for a day contains that day |
| Calendar.FindMonth | frontend/src/screens/DashboardPage.tsx:19 | the month found for a day of the year contains that day |
| Calendar.ToCivil | frontend/src/screens/DashboardPage.tsx:18-20 | `getFullYear`/`getMonth`/`getDate`: a valid calendar date whose day number is the day |
| Calendar.YearUnique | frontend/src/screens/DashboardPage.tsx:18 | a day lies in exactly one year |
| Calendar.DaysBeforeMonthMonotone | frontend/src/screens/DashboardPage.tsx:19 | later months start later in the year |
| Calendar.MonthUnique | frontend/src/screens/DashboardPage.tsx:19 | a day of the year lies in exactly one month |
| Calendar.CivilRoundTrip | frontend/src/screens/DashboardPage.tsx:17-27 | converting a valid calendar date to its day number and back gives the same date |
| Calendar.MakeDayInYear | frontend/src/screens/DashboardPage.tsx:26 | for a month index 0 to 11, `new Date(y, m, d)` counts d - 1 days from the first of that month of that year, whatever d is |
| Calendar.YearBounds | frontend/src/screens/DashboardPage.tsx:18 | every day lies between the start of the year `getFullYear()` reports and the start of the next |
| Calendar.MakeDayOfCivil | frontend/src/screens/DashboardPage.tsx:26 | `new Date(y, m - 1, d)` of a valid date is that date's day |
| Calendar.MakeDayShift | frontend/src/screens/DashboardPage.tsx:29-33 | `setDate(getDate() + k)` moves the date by exactly k days, across months and years |
| Calendar.YearMonotone | frontend/src/screens/DashboardPage.tsx:227-233 | later days never lie in earlier years |
| Calendar.YearOfEarlier | frontend/src/screens/DashboardPage.tsx:227-229 | going back at most 365 days goes back at most one year |
| Sql.ParseAssignmentOf | src/db/taskRepository.ts:98 | the server reads `column = $n` back as that column and placeholder number |
| Sql.Values | src/db/taskRepository.ts:99 | the pushed values are the changes' values, in order |
| Sql.NumberedPush | src/db/taskRepository.ts:97-100 | pushing `column = $(length + 1)` keeps the SET list numbered from `$1` |
| Sql.BindNumbered | src/db/taskRepository.ts:125-132 | a SET list numbered `$from...` whose placeholders find the changes' values assigns exactly those changes, in order |
| Sql.PushChange | src/db/taskRepository.ts:97-112 | one `if (x !== undefined) { fields.push(...); values.push(x) }` step keeps fields and values in step with the changes requested so far |
| Sql.ValuesPush | src/db/taskRepository.ts:99 | pushing a value extends the values by that change's value |
| Sql.BindParsed | src/db/taskRepository.ts:125-132 | a SET list whose entries read as the changes' columns with consecutive placeholders binds exactly those changes |
| Sql.BindWithOwner | src/db/taskRepository.ts:122-128 | with id and owner pushed last, the SET list binds exactly the changes, and `$k+1`, `$k+2` find the id and the owner |
| UserRepository.MapRowToUserRoundTrip | src/db/userRepository.ts:18-24 | `mapRowToUser` is a bijection between rows and users |
| UserRepository.FirstUser | src/db/userRepository.ts:52-55 | `rowCount === 0 ? null : mapRowToUser(rows[0])`: null iff no row matches, otherwise a matching row mapped |
| UserRepository.FirstUserOfUnique | src/db/userRepository.ts:52-55 | when one row matches, the lookup returns that row mapped |
| UserRepository.UserTable.constructor | src/db/userRepository.ts:26-38 | an empty users table |
| UserRepository.UserTable.AdvanceClock | src/db/userRepository.ts:33 | time moves forward and the invariant holds |
| UserRepository.UserTable.CreateUser | src/db/userRepository.ts:26-38 | inserts exactly one row with the given email, hash and name, a fresh id and the current time, and returns it mapped; emails stay unique, the caller supplying an email no row has |
| UserRepository.UserTable.FindUserByEmail | src/db/userRepository.ts:40-56 | null iff no row has the email; otherwise the user of the one row with that email |
| UserRepository.UserTable.FindUserById | src/db/userRepository.ts:58-74 | null iff no row has the id; otherwise the user of the row with that id |
| TodoRepository.TodoTable.constructor | src/db/todoRepository.ts:16-27 | an empty todos table |
| TodoRepository.TodoTable.AdvanceClock | src/db/todoRepository.ts:22 | time moves forward and the invariant holds |
| TodoRepository.AppendOwners | src/db/todoRepository.ts:16-27 | a new row joins its owner's list, at the end, and no other owner's list |
| TodoRepository.TodoTable.CreateTodo | src/db/todoRepository.ts:16-27 | appends one todo with a fresh id, the owner and title, stamped now; the owner's list grows by exactly it and every other owner's list is unchanged |
| TodoRepository.TodoTable.ListTodosForUser | src/db/todoRepository.ts:29-41 | exactly the user's todos, newest first |
| TodoRepository.TodoTable.DeleteTodo | src/db/todoRepository.ts:43-53 | removes the rows matching id and owner and nothing else; true iff such a row existed; none remains |
| TaskRepository.StatusRoundTrip | src/db/taskRepository.ts:26 | each status is stored under its own text, and only those texts read back as a status |
| TaskRepository.ApplyTaskChanges | src/db/taskRepository.ts:125-130 | a SET list never touches id, owner, created_at or updated_at |
| TaskRepository.ApplyAppend | src/db/taskRepository.ts:127 | the assignments of a SET list apply left to right |
| TaskRepository.TaskChangesMeaning | src/db/taskRepository.ts:97-112 | the requested SET list changes exactly the supplied fields, to the supplied values (null included), and leaves the others |
| TaskRepository.BuildTaskSet | src/db/taskRepository.ts:94-112 | the pushed fields are `column = $i` for the supplied fields in order, and `values[i-1]` is the i-th supplied value |
| TaskRepository.TaskColumnsNamed | src/db/taskRepository.ts:98-111 | every column the SET list names is a plain column name |
| TaskRepository.TaskTable.constructor | src/db/taskRepository.ts:42-55 | an empty tasks table with the status column's default |
| TaskRepository.TaskTable.AdvanceClock | src/db/taskRepository.ts:127 | time moves forward and the invariant holds |
| TaskRepository.TaskTable.CreateTask | src/db/taskRepository.ts:42-55 | appends one task with a fresh id, description and due date null when absent, the default status and both stamps now |
| TaskRepository.TaskTable.ListTasksForUser | src/db/taskRepository.ts:57-70 | exactly the user's tasks, newest first |
| TaskRepository.TaskTable.FindTaskById | src/db/taskRepository.ts:72-88 | null iff no task has both the id and the owner; otherwise that task |
| TaskRepository.TaskTable.ExecuteUpdate | src/db/taskRepository.ts:125-136 | the `UPDATE ... WHERE id = $k+1 AND user_id = $k+2` applies the bound SET list and `updated_at = NOW()` to the matching row only, or returns null and changes nothing |
| TaskRepository.TaskTable.UpdateTask | src/db/taskRepository.ts:90-137 | null and no change when no task has the id and owner; with no fields, the task unchanged; otherwise the supplied fields replaced, updated_at now, every other row unchanged |
| TaskRepository.TaskTable.DeleteTask | src/db/taskRepository.ts:139-152 | removes the task matching id and owner and nothing else; true iff it existed; none remains |
| HabitRepository.UpsertEntry | src/db/habitRepository.ts:103-116 | afterwards the (habit, date) entry exists with the given `completed` and created_at now, keeping its id if it existed; every other entry is unchanged |
| HabitRepository.UpsertIdempotent | src/db/habitRepository.ts:107-110 | upserting twice with the same arguments is upserting once (only created_at moves) |
| HabitRepository.UpsertLastWins | src/db/habitRepository.ts:109-110 | a second upsert for the same (habit, date) overwrites `completed` and keeps the first id |
| HabitRepository.RemoveCreatedOn | src/db/habitRepository.ts:130-143 | deletes exactly the habit's entries created on the given day and keeps all others as they were |
| HabitRepository.EntriesInRangeSound | src/db/habitRepository.ts:145-161 | every listed entry is the habit's stored entry for a date within [start, end] |
| HabitRepository.EntriesInRangeComplete | src/db/habitRepository.ts:145-161 | every stored entry of the habit dated within [start, end] is listed |
| HabitRepository.EntriesInRangeDescending | src/db/habitRepository.ts:145-161 | the listed entries are in strictly descending date order |
| HabitRepository.EntriesInRangeSpec | src/db/habitRepository.ts:145-161 | the listed entries are the habit's, dated within [start, end], all of them, in strictly descending date order |
| HabitRepository.ApplyHabitChanges | src/db/habitRepository.ts:191-196 | a SET list never touches id, owner or created_at |
| HabitRepository.HabitChangesMeaning | src/db/habitRepository.ts:171-178 | the requested SET list changes exactly the supplied name and description (null included) and leaves the rest |
| HabitRepository.BuildHabitSet | src/db/habitRepository.ts:168-178 | the pushed fields are `column = $i` for the supplied fields in order, and `values[i-1]` is the i-th supplied value |
| HabitRepository.HabitColumnsNamed | src/db/habitRepository.ts:172-176 | every column the SET list names is a plain column name |
| HabitRepository.HabitTable.constructor | src/db/habitRepository.ts:48-59 | empty habits and entries tables |
| HabitRepository.HabitTable.AdvanceClock | src/db/habitRepository.ts:110 | time moves forward and the invariant holds |
| HabitRepository.HabitTable.IdsUnique | src/db/habitRepository.ts:75-89 | no two habits share an id, so `WHERE id = $1` finds at most one |
| HabitRepository.HabitTable.CreateHabit | src/db/habitRepository.ts:48-59 | appends one habit with a fresh id, the owner and name, the description null when absent, stamped now |
| HabitRepository.HabitTable.ListHabitsForUser | src/db/habitRepository.ts:61-73 | exactly the user's habits, newest first |
| HabitRepository.HabitTable.FindHabitById | src/db/habitRepository.ts:75-89 | null iff no habit has the id, whoever owns it; otherwise that habit |
| HabitRepository.HabitTable.DeleteHabit | src/db/habitRepository.ts:91-101 | removes only a habit matching both id and owner; true iff one existed |
| HabitRepository.HabitTable.UpsertHabitEntry | src/db/habitRepository.ts:103-116 | the entries become the upsert of (habit, date) with `completed` defaulting to true; the returned entry is the stored one |
| HabitRepository.HabitTable.RemoveHabitEntry | src/db/habitRepository.ts:118-128 | true iff an entry for (habit, date) existed; afterwards none exists and nothing else changed |
| HabitRepository.HabitTable.RemoveHabitEntryByCreatedDate | src/db/habitRepository.ts:130-143 | removes the habit's entries created that day; true iff there was one |
| HabitRepository.HabitTable.ListHabitEntriesForRange | src/db/habitRepository.ts:145-161 | only that habit's entries within [start, end], all of them, in descending date order |
| HabitRepository.HabitTable.ExecuteUpdate | src/db/habitRepository.ts:191-205 | the `UPDATE ... WHERE id = $k+1 AND user_id = $k+2` applies the bound SET list to the matching row only, or returns null and changes nothing |
| HabitRepository.HabitTable.UpdateHabit | src/db/habitRepository.ts:163-206 | null and no change unless the habit exists and is owned by the user; otherwise the supplied fields replaced (the habit unchanged with none) and every other row unchanged |
| TodoService.CreateTodoForUser | src/services/todoService.ts:5-10 | a title blank after trimming fails with 400 "Title is required" and stores nothing; otherwise the trimmed title is stored and the owner's list grows by it |
| TodoService.ListUserTodos | src/services/todoService.ts:12-14 | the user's todos, newest first |
| TodoService.DeleteTodoForUser | src/services/todoService.ts:16-21 | 404 "Todo not found" iff the user has no todo with the id; the new table is the old one without exactly that row, in order, and the user's list lacks it |
| TaskService.CreateTaskForUser | src/services/taskService.ts:27-36 | the task is stored with the given title, description and due date defaulting to null, stamped now |
| TaskService.ListUserTasks | src/services/taskService.ts:38-42 | the user's tasks, newest first |
| TaskService.GetTaskForUser | src/services/taskService.ts:44-53 | the task iff the user owns a task with the id, else 404 "Task not found" |
| TaskService.UpdateTaskForUser | src/services/taskService.ts:55-63 | 404 and no change iff the user owns no such task; otherwise the task carries every supplied field, keeps the others, gets updated_at now when any field was supplied, and replaces the stored row while every other row is unchanged |
| TaskService.DeleteTaskForUser | src/services/taskService.ts:65-73 | 404 and no change iff the user owns no such task; the new table is the old one without exactly that row, in order, and none remains |
| HabitService.CreateHabitForUser | src/services/habitService.ts:22-30 | a name blank after trimming fails with 400 "Name is required" and stores nothing; otherwise the trimmed name is stored, description null when absent |
| HabitService.EnsureHabitBelongsToUser | src/services/habitService.ts:32-38 | succeeds iff the user owns the habit; a missing habit and another user's habit give the same 404 "Habit not found" |
| HabitService.DeleteHabitForUser | src/services/habitService.ts:40-46 | succeeds iff the user owns the habit, which is then removed; otherwise 404 and no change |
| HabitService.WindowLength | src/services/habitService.ts:50-55 | the window ends today and holds 14 days by default, `days` days when positive, none otherwise |
| HabitService.Views | src/services/habitService.ts:60-67 | each entry is mapped to its date text and `completed`, in order |
| HabitService.ListHabitsWithEntries | src/services/habitService.ts:48-72 | the user's habits newest first, each with its entries in the window, newest date first |
| HabitService.MarkHabitCompletion | src/services/habitService.ts:74-89 | 404 before any date check unless the user owns the habit; then 400 for an invalid date; else the upsert with `completed` defaulting to true and the date to today |
| HabitService.ClearHabitCompletion | src/services/habitService.ts:91-101 | 404 unless owned; 400 for an invalid date; else the entry is removed, 404 "Habit check-in not found" iff there was none |
| HabitService.MarkedEntryListed | src/services/habitService.ts:74-89 | a check-in marked on a day inside a window is listed for that window with its `completed` |
| AuthService.ResponseFor | src/services/authService.ts:64-77 | the token is signed over exactly id, email and name, and the response exposes only those |
| AuthService.ResponseIgnoresSecrets | src/services/authService.ts:70-77 | the response does not depend on the password hash or creation time |
| AuthService.RegisterUser | src/services/authService.ts:21-48 | 409 "Email already registered" and no change when the email is taken; otherwise one row with the hashed password and a token for the new user; emails stay unique |
| AuthService.AuthenticateUser | src/services/authService.ts:50-78 | 401 "Invalid credentials" alike for an unknown email and a wrong password; success iff the password matches the hash of the one user with that email |
| AuthService.LoginAfterRegister | src/services/authService.ts:21-78 | after registering, the email names exactly the new row, its hash accepts the password, and the response shows the new user |
| AuthMiddleware.Authorize | src/middleware/authMiddleware.ts:12-39 | a missing or empty header gives 401 "Missing Authorization header"; every rejection is a 401 |
| AuthMiddleware.AuthorizeMeaning | src/middleware/authMiddleware.ts:22-38 | a non-`bearer` scheme (any case) or a missing token gives 401 "Invalid Authorization header"; a token verify rejects gives 401 "Invalid or expired token"; otherwise the request proceeds as the token's user |
| AuthMiddleware.FieldsOf | src/middleware/authMiddleware.ts:22 | the scheme is everything before the first space and the token the next space-free piece |
| AuthMiddleware.FieldsOfTwo | src/middleware/authMiddleware.ts:22 | a space-free scheme and token are the two fields, with or without a further space-separated tail |
| AuthMiddleware.SameFieldsSameOutcome | src/middleware/authMiddleware.ts:22-26 | the outcome depends only on the lower-cased scheme and the token |
| AuthMiddleware.BearerHasNoSpace | src/middleware/authMiddleware.ts:24 | a scheme equal to "bearer" ignoring case has no space |
| AuthMiddleware.SchemeCaseInsensitive | src/middleware/authMiddleware.ts:24 | `Bearer`, `BEARER` and every other casing behave as `bearer` |
| AuthMiddleware.OnlyFirstTwoFields | src/middleware/authMiddleware.ts:22 | anything after a second space is ignored |
| AuthMiddleware.Request.constructor | src/middleware/authMiddleware.ts:12-17 | a request with no user, no response and `next` not called |
| AuthMiddleware.Handle | src/middleware/authMiddleware.ts:12-39 | a rejection sends its status and message and leaves `req.user` and `next` alone; acceptance sets `req.user` and calls `next` once |
| ErrorHandlers.NotFoundHandler | src/middleware/errorHandlers.ts:5-7 | always 404, nothing logged |
| ErrorHandlers.NotFoundUniform | src/middleware/errorHandlers.ts:5-7 | every path gets the same 404 "Resource not found" |
| ErrorHandlers.ErrorHandler | src/middleware/errorHandlers.ts:9-25 | an AppError is answered with its own status and message and logged iff the status is at least 500; any other error is a logged 500 |
| ErrorHandlers.UnexpectedMessageHidden | src/middleware/errorHandlers.ts:23-24 | the message of an unexpected error never reaches the reply: every one is answered "Unexpected error occurred" |
| ErrorHandlers.KnownRoundTrip | src/middleware/errorHandlers.ts:16-21 | the reply to an AppError carries exactly its message and status |
| DashboardDates.NumberOfDigits | frontend/src/screens/DashboardPage.tsx:25 | `Number` reads a run of digits as its value |
| DashboardDates.SplitThree | frontend/src/screens/DashboardPage.tsx:25 | `a-b-c` splits on '-' into a, b and c when none contains '-' |
| DashboardDates.ParseDigitFields | frontend/src/screens/DashboardPage.tsx:24-27 | three digit runs joined by '-' parse to `new Date(year, month - 1, day)` |
| DashboardDates.LocalDateOfCivil | frontend/src/screens/DashboardPage.tsx:26 | `new Date(y, m - 1, d)` of a valid date from year 100 on is that date's day |
| DashboardDates.IsoParse | frontend/src/screens/DashboardPage.tsx:24-27 | a `YYYY-MM-DD` text naming a real date parses to the day it names |
| DashboardDates.ParseOfFormat | frontend/src/screens/DashboardPage.tsx:17-27 | `parseLocalDate(formatLocalDate(d))` is d, for years from 100 on |
| DashboardDates.FormatOfParse | frontend/src/screens/DashboardPage.tsx:17-27 | a `YYYY-MM-DD` text naming a real date parses to that date, and formatting it gives the text back |
| DashboardDates.IsoFields | frontend/src/screens/DashboardPage.tsx:18-21 | the year, month and day fields of an ISO date are what `formatLocalDate` writes for their values |
| DashboardDates.Date.constructor | frontend/src/screens/DashboardPage.tsx:30 | `new Date(date)` holds the same day |
| DashboardDates.Date.GetDate | frontend/src/screens/DashboardPage.tsx:31 | `getDate()` is a day of the month, 1 to 31 |
| DashboardDates.Date.GetMonth | frontend/src/screens/DashboardPage.tsx:19 | `getMonth()` counts from 0 to 11 |
| DashboardDates.Date.GetDay | frontend/src/screens/DashboardPage.tsx:37 | `getDay()` is 0 to 6 |
| DashboardDates.Date.SetDate | frontend/src/screens/DashboardPage.tsx:31 | `setDate(n)` moves the date by n minus the current day of month, rolling over month and year ends |
| DashboardDates.AddDays | frontend/src/screens/DashboardPage.tsx:29-33 | `addDays(d, k)` is exactly k days after d |
| DashboardDates.MondayOnOrBeforeSpec | frontend/src/screens/DashboardPage.tsx:35-42 | the reference week start is a Monday at most six days back |
| DashboardDates.MondayOffset | frontend/src/screens/DashboardPage.tsx:35-42 | the Monday on or before a day is six days back from a Sunday and `1 - getDay()` days away otherwise |
| DashboardDates.StartOfWeek | frontend/src/screens/DashboardPage.tsx:35-42 | the Monday on or before the date; a Sunday goes back six days |
| DashboardDates.WeekDaysSpec | frontend/src/screens/DashboardPage.tsx:66-76 | seven dates, the first the week start, the i-th reading back as the start plus i days |
| DashboardDates.WeekDayAt | frontend/src/screens/DashboardPage.tsx:68-70 | day i of the week is the week start moved by i days |
| DashboardDates.WeekDayReads | frontend/src/screens/DashboardPage.tsx:68-71 | day i of the week parses back as the start plus i |
| DashboardDates.ReadShifted | frontend/src/screens/DashboardPage.tsx:17-33 | a day at most a week from a day of year 1000 or later reads back from its formatted text |
| DashboardDates.WeekNavigation | frontend/src/screens/DashboardPage.tsx:227-233 | each step moves exactly seven days, and previous and next week undo each other |
| Dashboard.CompletedOn | frontend/src/screens/DashboardPage.tsx:107-109 | a day's count is at most the number of habits |
| Dashboard.WeeklyCount | frontend/src/screens/DashboardPage.tsx:415-417 | a habit's weekly count is at most the number of week days |
| Dashboard.WeeklyCountExtremes | frontend/src/screens/DashboardPage.tsx:415-417 | the count is the whole week iff the habit was done every day, and 0 iff on none |
| Dashboard.SumCountsBound | frontend/src/screens/DashboardPage.tsx:102-125 | the completed slots never exceed habits times days |
| Dashboard.WeeklyCountAppend | frontend/src/screens/DashboardPage.tsx:415-417 | one more day adds one to a habit's weekly count exactly when the habit was done that day |
| Dashboard.CompletedOnAppend | frontend/src/screens/DashboardPage.tsx:107-109 | one more habit adds one to a day's count exactly when it was done that day |
| Dashboard.SumWeeklyAppendDay | frontend/src/screens/DashboardPage.tsx:107-109 | a further day adds that day's count to the habits' weekly counts |
| Dashboard.CountsAgree | frontend/src/screens/DashboardPage.tsx:102-125 | adding up the day counts and adding up the habits' weekly counts give the same total |
| Dashboard.EmptyWeek | frontend/src/screens/DashboardPage.tsx:415-417 | over no days every weekly count is 0 |
| Dashboard.SumCountsStep | frontend/src/screens/DashboardPage.tsx:107-111 | `completedSlots += completedForDay`: the running total after a day is the total before plus that day's count |
| Dashboard.BreakdownStep | frontend/src/screens/DashboardPage.tsx:107-117 | mapping one more day appends exactly that day's entry to the breakdown |
| Dashboard.WeeklyStats | frontend/src/screens/DashboardPage.tsx:102-125 | totalSlots is habits times days; the breakdown has each day with its count; completedSlots is the sum of the day counts, equals the sum of weekly counts, and is at most totalSlots |
| Dashboard.ToggleEntriesSpec | frontend/src/screens/DashboardPage.tsx:206-208 | a done date is left with no entry, an undone one with exactly one completed entry at the end; every other date keeps its entries |
| Dashboard.FilterOfOtherDate | frontend/src/screens/DashboardPage.tsx:206 | dropping one date's entries keeps every other date's entries |
| Dashboard.ToggleSpec | frontend/src/screens/DashboardPage.tsx:199-211 | only items with the clicked habit's id change, and only in their entries; the clicked date flips relative to the clicked habit; every other date is unchanged |
| Dashboard.DashboardState.constructor | frontend/src/screens/DashboardPage.tsx:44 | the page opens on the Monday of the current week |
| Dashboard.DashboardState.GoToPreviousWeek | frontend/src/screens/DashboardPage.tsx:227-229 | the week start moves back seven days, through `addDays` |
| Dashboard.DashboardState.GoToNextWeek | frontend/src/screens/DashboardPage.tsx:231-233 | the week start moves forward seven days, through `addDays` |
| Dashboard.DashboardState.GoToCurrentWeek | frontend/src/screens/DashboardPage.tsx:235-237 | the week start becomes the Monday of today's week |
| Dashboard.DashboardState.ToggleHabitDay | frontend/src/screens/DashboardPage.tsx:199-219 | the list becomes the toggled list; the request clears the check-in when the day was done and marks it completed otherwise |

## Left out

- I/O is not modelled: the connection pool, HTTP, Express routing and controllers, zod validation, the browser, `localStorage`, toasts and the API client. The services are called directly with typed arguments.
- Concurrency is not modelled. Each repository call is atomic, and the `Promise.all` over habits is sequential.
- Ids are naturals from a per-table counter rather than UUIDs. `NOW()` is the table's `clock`, which only moves forward.
- Column defaults live in a migration that is not part of this model. The task status default is a parameter of `TaskTable`.
- Cascading deletes are not modelled: deleting a habit leaves its check-ins in the map. No service reaches them, because every service checks that the habit exists first.
- Password hashing, hash comparison, token signing and token verification are foreign libraries. They enter as function values. `compare(p, hash(p))` is a precondition of `AuthService.LoginAfterRegister`, not an axiom.
- `new Date(string)` validity and the `::date` / `toISOString().slice(0, 10)` normalisation of the services are parameters (`parseDate`, `dateText`). Time zones and times of day are not modelled; a day number stands for a local date.
- DashboardDates.JsNumber: `Number()` is modelled only for trimmed runs of decimal digits (the empty run is 0). Any other text is NaN, including signs, decimals, exponents and hexadecimal, which JavaScript would read as numbers.
- DashboardDates.ParseOfFormat: the round trip is stated for years from 100 on. `new Date(y, ...)` reads the years 0 to 99 as 1900 to 1999, and a negative year's leading '-' splits the text, so those years do not round-trip (the model reproduces both behaviours).
- The ECMAScript limit of ±100,000,000 days on time values is not modelled: a date never becomes invalid by being moved too far.
- Dashboard.WeeklyStats: percentages (`Math.round` on floating division) and the weekday labels (`Intl.DateTimeFormat`) are not modelled. The week range label is not modelled either.
- Dashboard.DashboardState.ToggleHabitDay: the request is returned, not sent. The error path that reloads the list is not modelled, being a network failure.
- The loading flag, the habit edit form and `refreshData` are page plumbing around the modelled state and are not modelled.
- UserRepository.UserTable.CreateUser: the server's refusal of a duplicate email (a unique-violation error from the database) is not modelled as an error path. It is a precondition instead, which `AuthService.RegisterUser` meets by looking the email up first.
- Text.ToLower: only the ASCII letters A to Z are lowered. JavaScript's `toLowerCase()` also lowers other letters (`À` becomes `à`) and can lengthen a text (`İ` becomes two code units). The one use, comparing the scheme with "bearer", is unaffected: no character outside A to Z lowers to a letter of "bearer".

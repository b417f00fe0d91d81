# Token ledger of the class-token web application

This project models the token ledger of a small Express/SQLite web application.
- Professors grant tokens to students and revoke them.
- Students pass tokens to each other.
- Professors register the classes they teach, and the application shows each
  professor's classes with their students, highest balance first.

The database has five tables, held as the fields of one object, `Ledger.TokenDb`:
- `students` and `professors` are maps keyed by email;
- `classes` is a sequence of rows in insertion order;
- `generations` and `transactions` are the two logs, in append order.

Each request handler that writes to the database is a method of that object.
The token and class handlers return the response they would send: `Done` for
`{success: true}`, or the error. The profile handler returns the profile
decision: the column and value it writes, or the error.
Every method keeps `Valid()`, the invariant the table definitions and the
handlers establish together:
- every balance is non-negative;
- every balance equals what the two logs say about it: grants and revocations
  addressed to the student, plus transfers received, minus transfers sent;
- the foreign keys hold, and so does the `classes` primary key;
- every stored email passes the `instr(email, '@') > 1` CHECK;
- the tokens held by all students together equal the net amount professors
  have issued.

The files:
- `schema.dfy` holds the rows, the replay of a balance from the logs, and the
  effect of the `UPDATE ... SET nTokens = nTokens ± ?` statements on the table.
- `validation.dfy` holds the registration form checks (both regular
  expressions, with a proof that each scan is the pattern), the table of
  profile fields each role may edit, and the decision chain of the profile
  update. Lengths are counted both as JavaScript counts them (UTF-16 code
  units) and as SQLite's `length()` counts them (characters before the first
  NUL).
- `roster.dfy` holds what `/api/classes` and `/api/leaderboard` return, as
  functions of the tables.
- `ledger.dfy` holds the invariant, the handlers and the history order.
- `common.dfy` holds first-occurrence de-duplication (a JavaScript `Set`),
  `join` and its inverse.

Behaviour of the code worth knowing before reading the contracts:
- A professor may grant tokens to, or revoke them from, any student. Nothing
  checks that the professor teaches the student's class.
- A student may send tokens to themselves. The balance is unchanged and one
  transfer row is logged (`Schema.TransferEffect`).
- The student transfer checks the sender's balance before it looks up the
  target.
- The class queries order by `nTokens DESC` only, so the order of students
  with equal balances is unspecified.

## Model

| member | source | states |
|---|---|---|
| Ledger.CheckRequest | index.js:624-630 | The request passes exactly when the target is non-empty and the amount is a number greater than zero. A zero or missing amount is "Data not valid"; a negative one is "must be a positive integer". |
| Ledger.TokenDb.constructor | index.js:103-152 | The freshly created tables are empty and satisfy the invariant. |
| Ledger.TokenDb.ProfGiveTokens | index.js:621-652 | It succeeds exactly when the request checks pass and the target student exists. On success, the target's balance rises by the amount, no other row changes, and one generation row (professor, target, amount) is appended. Every failure leaves all tables unchanged and names the first failing check. The invariant is kept. |
| Ledger.TokenDb.Generate | index.js:639-645 | The balance update and the generation row together keep the invariant. No other table changes. |
| Ledger.TokenDb.ProfTakeTokens | index.js:654-689 | It succeeds exactly when the checks pass, the target exists, and the balance is at least the amount. On success, the balance drops by the amount and a generation row with the negated amount is logged. "Not enough tokens" and the other failures change nothing. Balances never go negative. |
| Ledger.TokenDb.StudGiveTokens | index.js:718-761 | The checks run in the source's order: request checks, then a sender without a row (internal error), then the sender's balance, then the target's existence. On success, the table is the receiver credited and then the sender debited, and one transfer row is appended. Failures change nothing. Generations, professors and classes never change. |
| Ledger.TokenDb.Exchange | index.js:742-753 | The two updates and the transfer row keep the invariant, including the total of all balances. |
| Ledger.TokenDb.AddClass | index.js:579-617 | An empty section or subject gives "Missing data". A (section, professor, subject) row that already exists gives "Class already exists". Otherwise exactly that row is appended and it was not present before. No other table changes. |
| Ledger.TokenDb.InsertClass | index.js:606-610 | Appending a new row for a registered professor keeps the primary key, the foreign key and the invariant. |
| Ledger.TokenDb.Register | index.js:239-313 | The form errors come first, in order. Then a student whose class is unknown gets "Class Not Found", then an unknown role gets "Role Not Valid", then an email already in the role's table gets "Email Already Used". It succeeds exactly when none of these applies. On success, exactly one row is added, with balance 0 for a student. Failures change nothing. |
| Ledger.TokenDb.InsertStudent | index.js:297-301 | A new student row starting at zero tokens keeps the invariant. Its balance agrees with logs that never mention it. |
| Ledger.TokenDb.InsertProfessor | index.js:302-306 | A new professor row with a CHECK-valid email keeps the invariant. |
| Ledger.TokenDb.EditProfile | index.js:801-870 | The answer is the profile decision for the caller, with the comparison awaited, given whether the caller has a row in their role's table. A refusal changes nothing. An accepted `name`, `surname` or `class` edit replaces exactly that column of the caller's own row; the balance, every other row, the classes and the logs stay. The invariant is kept. |
| Ledger.TokenDb.ReplaceStudent | index.js:862-864 | Replacing one student row by a row with the same balance keeps the invariant and changes nothing else. |
| Ledger.TokenDb.ReplaceProfessor | index.js:862-864 | Replacing one professor row keeps the invariant and changes nothing else. |
| Ledger.StudentEditKeepsConsistent | index.js:862-864 | A student row edit that keeps the balance keeps every balance equal to its replay, the foreign keys and the total of all balances. |
| Ledger.EditStudent | index.js:840-864 | `UPDATE students SET <column> = ?` gives the named column the value, leaves the other columns, and never touches the balance. |
| Ledger.EditProfessor | index.js:840-864 | `UPDATE professors SET <column> = ?` gives the named column the value and leaves the other. |
| Ledger.TokenDb.ClassRoster | index.js:532-576 | There is one group per section the professor teaches, in the order of first appearance among the professor's rows. Each group's subject text is that section's distinct subjects, in first-seen order, joined with ", ". Its students are exactly that class's students, each once, highest balance first. |
| Ledger.GroupRows | index.js:541-552 | After the first loop, the keys are the professor's sections in first-seen order. The map has exactly those keys, and each holds that section's distinct subjects. |
| Ledger.GroupStep | index.js:544-552 | Every branch of one loop iteration keeps the grouping invariant. |
| Ledger.AddRow | index.js:545-551 | The loop body, with its two `if`s, turns the grouping of the rows seen so far into the grouping of those rows plus the next one. |
| Ledger.GroupNewSection | index.js:545-551 | A new section becomes a key whose set holds one subject. |
| Ledger.GroupKnownSubject | index.js:551 | Adding a subject already in the set changes nothing. |
| Ledger.GroupNewSubject | index.js:551 | A new subject is appended to its own section's set only. |
| Ledger.TokenDb.Leaderboard | index.js:707-716 | A caller without a row gets no answer. Otherwise the answer is exactly the caller's classmates, each once, highest balance first. |
| Ledger.GenerationKeepsConsistent | index.js:639-645 | A grant or revocation that leaves the balance non-negative, logged with its signed amount, keeps every balance equal to its replay. The total of all balances equals the net amount issued. |
| Ledger.TransferKeepsConsistent | index.js:742-753 | An affordable transfer keeps balances non-negative and equal to their replay, keeps the logs' foreign keys, and keeps the total of all balances. |
| Ledger.NewStudentKeepsConsistent | index.js:297-301 | A new student row with the default balance 0 keeps the invariant. |
| Ledger.NewClassKeepsConsistent | index.js:128-132 | A class row that is new, for a registered professor, keeps the primary key and the foreign key. |
| Ledger.AlreadyExistsIsMember | index.js:587-601 | The duplicate check over the professor's own rows finds a match exactly when the full row is already in the table. |
| Ledger.NewestFirst | index.js:765-766 | A history holds exactly the log entries that involve the user on the asked side, and no more entries than the log has. |
| Ledger.Positions | index.js:765-766 | The positions of the entries involving the user, as the history lists them: every one below the log's length. |
| Ledger.PositionsSpec | index.js:696 | Those positions are exactly the entries involving the user on the asked side, each once, in strictly decreasing order: the latest logged first. |
| Ledger.NewestFirstOrder | index.js:765-766 | The i-th history entry is the log entry at the i-th of those positions, so the history lists every matching entry once, latest logged first. |
| Schema.Credit | index.js:639-641 | The balance update changes only the named row's balance, by the given delta, and keeps the set of rows. |
| Schema.ReplayAppendGeneration | index.js:644-645 | Logging a generation changes only the receiver's replayed balance, by the logged amount. The issued total changes by the same amount. |
| Schema.ReplayAppendTransaction | index.js:752-753 | Logging a transfer raises the receiver's replayed balance and lowers the sender's by the amount. |
| Schema.ReplayUnmentioned | index.js:110 | An address no log entry mentions replays to 0, the column default. |
| Schema.CreditTotal | index.js:639-641 | Crediting one row by a delta changes the total of all balances by exactly that delta. |
| Schema.InsertTotal | index.js:297-301 | Inserting a row adds its balance to the total. |
| Schema.TotalTokensSplit | index.js:110 | The total of all balances can be split off at any row. |
| Schema.TransferEffect | index.js:742-749 | Crediting and then debiting moves the amount from sender to receiver and leaves every other row as it was. When both are the same student, the table is unchanged. The total is kept. |
| Schema.ReplaceTotal | index.js:862-864 | Replacing one row changes the total of all balances by the difference of the two balances. |
| Schema.TransferTotal | index.js:742-749 | Crediting the receiver and then debiting the sender leaves the total of all balances unchanged. |
| Validation.CheckForm | index.js:246-263 | The form passes exactly when no field is empty, the email matches `^[^\s@]+@[^\s@]+\.[^\s@]+$`, and the password matches the strength pattern. Each error is given exactly when its own check fails and every earlier one passes: "Every Field is Required", then "Invalid Email Format", then the length message (fewer than 8 UTF-16 code units), then the strength message. A password the pattern accepts is never refused by the length check. |
| Validation.AstralPasswordAccepted | index.js:257-260 | Lengths are counted in UTF-16 code units, as JavaScript counts them: a six-character password with two characters above U+FFFF is 8 units long and passes. |
| Validation.Utf16Length | index.js:257 | The JavaScript `length` of a string lies between its number of characters and twice that. |
| Validation.Utf16LengthAppend | index.js:257 | The length is additive over concatenation, is 0 for the empty string, and is 2 for one character at U+10000 or above and 1 for any other: together, this fixes the count for every string. |
| Validation.Utf16LengthBmp | index.js:257 | The JavaScript length equals the number of characters exactly when no character lies above U+FFFF. |
| Validation.SqliteLength | index.js:106-119 | SQLite's `length()` of a text is the number of characters before the first NUL: none of those is NUL, and the one after them, if any, is. |
| Validation.AstralPasswordShortForSqlite | index.js:106-119 | The six-character password that JavaScript counts as 8 units long is 6 long for SQLite. |
| Validation.NulPasswordStrong | index.js:824-828 | A password of a NUL followed by `Aa1!bcd` is 8 code units long and passes the handler's strength pattern. |
| Validation.NulPasswordRefused | index.js:824-869 | A new password starting with NUL passes the handler's length and strength checks but breaks the table's `length(password) >= 8` CHECK, so the answer is "Internal Error!". |
| Validation.EmailCheckIsPattern | index.js:251-252 | The scan of the address accepts exactly the strings the email pattern matches. |
| Validation.PasswordRuleIsPattern | index.js:259-260 | The lookahead pattern holds exactly when the password is at least 8 UTF-16 code units on one line, with a lower-case letter, an upper-case letter, a digit and a symbol. |
| Validation.SchemaEmailIsInstr | index.js:105 | The CHECK `instr(email, '@') > 1` means the first `@` sits after the first character. |
| Validation.ValidEmailFitsSchema | index.js:105 | Every address the form accepts satisfies the tables' email CHECK. |
| Validation.EditableColumn | index.js:840-859 | A field maps to a column exactly when it is `name`, `surname` or `password`, or it is `class` and the caller is a student. The column is the field's own name. |
| Validation.EditDecision | index.js:801-866 | Each response is given exactly when its own check fails and every earlier one passes, in the handler's order: unknown role, a missing field, no row for the user, a new password shorter than 8 code units, a new password failing the pattern, the password test, a field that is not editable, then a new password that SQLite's `length()` counts as shorter than 8, which breaks the table's CHECK and is answered "Internal Error!". Otherwise the value is written, as given, to the field's own column. |
| Validation.ChangeUserInfoAsWritten | index.js:834-837 | The handler as written never answers "Wrong Password". |
| Validation.WrongPasswordAccepted | index.js:834-837 | As written, a student's name change with a wrong current password goes through. |
| Validation.ChangeUserInfo | index.js:834-837 | With the comparison awaited, an update happens only when the current password matches. "Wrong Password" is given exactly when the request passes the earlier checks and the password does not match. With a matching password the result is the same as in the handler as written. |
| Roster.RowsOf | index.js:535-539 | The professor's rows are exactly the table rows carrying their email. |
| Roster.SectionsSpec | index.js:544-550 | The sections list has no repeats and holds exactly the sections of the rows. |
| Roster.SubjectsSpec | index.js:548-551 | A section's subject set has no repeats and holds exactly the subjects taught in that section. |
| Roster.SectionsAppend | index.js:545-550 | One more row adds its section at the end of the keys if it is unseen; otherwise the keys stay. |
| Roster.SubjectsAppend | index.js:551 | One more row adds its subject at the end of its section's set if it is new. |
| Roster.SubjectsAppendOther | index.js:551 | One more row leaves the subject sets of other sections unchanged. |
| Roster.SubjectsOfUnseen | index.js:545-549 | A section not yet seen has an empty subject set. |
| Roster.SelectClass | index.js:558-563 | The class query returns every student of the section exactly once, with the row as stored, nobody else, highest balance first. |
| Roster.InsertionPoint | index.js:562 | The insertion point lies after every row with at least the new balance and before every row with less. |
| Roster.Insert | index.js:562 | Inserting at that point puts the new row there and shifts the later rows by one. |
| Roster.InsertSorted | index.js:562 | Insertion keeps the list ordered highest balance first. |
| Roster.InsertEmails | index.js:558-563 | Insertion adds exactly the new student's email to the list's emails. |
| Roster.InsertMember | index.js:558-563 | Inserting a not-yet-seen student of the section keeps the list exactly the section's students seen so far. |
| Roster.InsertStep | index.js:558-563 | One scanned student is inserted if in the section and skipped otherwise, and the list stays exact. |
| Common.DistinctOrder | index.js:544-551 | A `Set` lists its members in the order of their first insertion. |
| Common.DistinctNoRepeats | index.js:548-551 | A `Set` holds no member twice. |
| Common.DistinctElements | index.js:548-551 | A `Set` filled from a list holds exactly that list's members. |
| Common.DistinctOfNoRepeats | index.js:548-551 | Filling a `Set` from a list without repeats keeps the list as it is. |
| Common.SplitJoin | index.js:567 | The joined subject text can be split back into the subjects when no subject contains the separator's first character. |

## Findings

| source | as written | input that shows it | evidently intended | confidence | as-written member | corrected member |
|---|---|---|---|---|---|---|
| index.js:834-837 | `bcrypt.compare` is called without `await`, and the pending promise it returns is always truthy, so the "Wrong Password" branch can never be taken | a signed-in student sends field `name`, value `Mallory` and a wrong current password: the name is changed | the update is refused with "Wrong Password" unless the current password matches | high; not executed | Validation.ChangeUserInfoAsWritten, Validation.WrongPasswordAccepted | Validation.ChangeUserInfo |

## Left out

- Ledger.TokenDb.ProfGiveTokens: requires that the signed-in professor has a row. The session guarantees this. Without the row, the handler's balance update runs and its generation insert then fails on the foreign key: a partial effect that is not modelled.
- Ledger.TokenDb.ProfTakeTokens: requires that the signed-in professor has a row, for the same reason.
- Ledger.TokenDb.AddClass: requires that the signed-in professor has a row. Without it, the insert fails on the foreign key and the handler answers "Internal Error!".
- Ledger.TokenDb.Register: the password hash is not stored. Hashing is a foreign call, and no modelled operation reads the hash. A bcrypt hash is 60 characters long, so the `length(password) >= 8` CHECK cannot fail on this path.
- Ledger.TokenDb.Register: `studClass` is `None` when the form omits the field. A student then gets "Class Not Found", which is what the query with an undefined parameter yields.
- Ledger.CheckRequest: amounts are integers. JSON strings, fractional numbers and JavaScript's coercions in `isNaN`, `<=` and `-` are not modelled. A non-numeric amount is `NotANumber` and a missing one is `Missing`.
- Ledger.CheckRequest: a missing target and the empty string are both modelled as `""`.
- Schema.Credit: balances are unbounded integers. SQLite's 64-bit integer overflow is not modelled.
- Ledger.NewestFirst: append order stands in for the `date` timestamps. Rows logged within the same second may come back from SQLite in either order. The professor history (line 696) is `NewestFirst(generations, prof, AsSender)`. The student history (lines 765-766) is `NewestFirst` over both logs.
- Roster.SelectClass: students with equal balances may come in any order, as `ORDER BY nTokens DESC` does not fix one. The rows also omit the password hash and the picture columns the query returns.
- Ledger.TokenDb.ClassRoster: JavaScript lists integer-like object keys (a section named `"3"`) in ascending numeric order before the others. The model keeps plain insertion order.
- Ledger.TokenDb.ClassRoster: a section named after an `Object.prototype` member such as `constructor` makes the handler throw and send no response. This is not modelled.
- Validation.EditableColumn: a field named after an `Object.prototype` member passes the source's lookup and reaches the SQL statement as a column name. The model answers "Field not valid".
- Validation.EditDecision: a new password is written to the table unhashed (lines 862-864). The model returns the value as given; the login that would then fail is not part of this model.
- Ledger.TokenDb.EditProfile: an accepted `password` edit changes no modelled table, because the password column is not part of the modelled rows.
- Ledger.TokenDb.EditProfile: uses the corrected, awaited password comparison (see the finding on lines 834-837); the handler as written is `Validation.ChangeUserInfoAsWritten`.
- Validation.EditDecision: the comparison's result is a parameter, because bcrypt is a foreign call.
- Validation.IsSpace: the regular expressions' `\s` and `\W` are restricted to ASCII. Non-ASCII whitespace and letters are not modelled.
- Concurrency: each handler runs as one atomic step. Interleavings between its awaited statements, and the partial effects of a statement failing halfway, are not modelled.
- Not part of this model: the HTTP routing and the session and role guards (lines 165-199); login; bcrypt; picture upload and the file system (lines 51-86 and 874-920); the pages; the commented-out code.

# simple-reg-api registration core, modelled in Dafny

This project models the two pieces of logic behind the `POST /register` endpoint
of simple-reg-api:

- **The registration handler** (`server.js`). It checks that all five fields
  (`userName`, `name`, `email`, `password`, `mobile`) are present and non-empty.
  It then checks the email against a Gmail-only pattern and the mobile number
  against a Sri Lankan pattern. It hashes the password and hands the user to the
  store. Whatever the store throws is mapped to 409 or 500.
- **The duplicate-check-then-insert transaction** (`models/User.js`). It looks
  up rows whose email or username matches the new user. A match is refused with
  a `USER_EXISTS` error whose message says which field clashed. Otherwise it
  inserts one row and commits. It rolls back on any failure after it obtains the
  connection, and always releases the connection it obtained.

Both regular expressions are hand-written predicates over `string`. Each comes
with a literal, existential reading of the pattern (`Email.EmailPatternTest`,
`Mobile.MobilePatternTest`), and a lemma proves the two agree on every input.

The transaction is a pure function from a table to an `Outcome`. The `Outcome`
holds the result, the committed table and the sequence of driver calls issued.
The driver is replaced by `Faults`, which gives the error each call throws, if
any. The password hash is a parameter (`Env.hash`), and so is the error the hash
may throw.

The mobile check and the conflict classification take a `Readings.Reading`, and
every function that calls them passes it on. `AsWritten` follows the code literally,
and `AsIntended` follows its evident intent (see "## Findings"). Every property
below holds for both readings unless its row says otherwise.

Modules: `Wrappers` (Option, Result), `Readings`, `Chars` (ASCII classes),
`Email`, `Mobile`, `UserStore` (models/User.js), `Registration` (server.js).

## Model

| member | source | states |
|---|---|---|
| Email.LocalPart | server.js:29 | an accepted address is its local part followed by the literal `@gmail.com` |
| Email.IsGmailAddress | server.js:29-30 | an accepted address is longer than `@gmail.com` and ends with it |
| Email.EmailMatchesPattern | server.js:29-32 | the split-at-the-domain check accepts exactly the strings the pattern matches: the digits-only lookahead fails, and the address is one ASCII letter or digit, then 0-63 characters from `[a-zA-Z0-9._%+-]`, then `@gmail.com` |
| Email.AcceptedEmailShape | server.js:24-29 | every accepted address is 11 to 74 characters long and ends with `@gmail.com`; its local part starts with a letter or digit, holds at least one non-digit, and uses only local characters (no `@`) |
| Email.LocalPartRoundTrip | server.js:29 | a valid local part followed by the domain is accepted, and its local part is recovered exactly |
| Email.DotsAreNotPoliced | server.js:29 | consecutive and trailing dots in the local part are accepted |
| Email.RefusedAddresses | server.js:29-32 | a capitalised domain, an all-digit local part and an empty local part are refused |
| Mobile.PrefixOf | server.js:37 | the string's length fixes the only prefix it can carry: 9 for none, 10 for `0`, 12 for `+94` |
| Mobile.ParseMobile | server.js:37-38 | a successful parse yields a well-formed operator character and subscriber part (seven ASCII digits), and the input is exactly as long as the prefix plus nine characters |
| Mobile.IsSriLankanMobile | server.js:37-38 | every accepted number has length 9, 10 or 12 |
| Mobile.ParseRender | server.js:37 | parsing a rendered well-formed number gives back its prefix, operator character and subscriber digits |
| Mobile.RenderParse | server.js:37 | a successful parse yields well-formed parts that render back to the input |
| Mobile.MobileMatchesPattern | server.js:34-40 | the parse accepts exactly the strings the pattern matches: optional `0` or `+94`, then `7`, then one operator character, then exactly seven ASCII digits |
| Mobile.AcceptedMobileShape | server.js:34-37 | every accepted number has length 9, 10 or 12, has `7` nine characters from the end, never has `3` or `9` after it, and ends in seven digits |
| Mobile.ReadingsDifferOnlyOnComma | server.js:36-37 | a number the as-written check accepts with an operator character other than a comma is accepted as intended; a number accepted as intended is accepted as written and has no comma there |
| Mobile.CommaOperatorAcceptedAsWritten | server.js:37 | `07,1234567` is accepted as written and refused as intended |
| Mobile.IntendedMobileIsDigits | server.js:35-37 | as intended, the nine characters after the prefix are all ASCII digits |
| Mobile.FormatAccepted | server.js:35-37 | any string rendered from well-formed parts is accepted |
| Mobile.DocumentedFormatsAccepted | server.js:35 | the three documented formats `0712345678`, `+94712345678` and `712345678` are accepted |
| UserStore.Matching | models/User.js:12-15 | the duplicate query returns exactly the table's rows that meet `Clashes`, the `email = ? OR username = ?` condition of models/User.js:13-14: they share the new email or the new username |
| UserStore.MatchingNonEmptyIff | models/User.js:12-17 | the query returns some row exactly when some row of the table clashes |
| UserStore.FreshId | models/User.js:39-46 | the generated id is at least 1 and larger than every id in the table |
| UserStore.ConflictMessage | models/User.js:17-33 | the conflict message is always one of the three fixed messages |
| UserStore.TryBlock | models/User.js:8-46 | the try block never releases the connection or rolls back itself; on success it has committed, and the id it returns belongs to no existing row |
| UserStore.TryBlockStopsAtFirstFault | models/User.js:8-46 | the try block issues calls until the first one that fails and throws that call's own error, or stops after the duplicate query with the `USER_EXISTS` error; every call before the last succeeded, and on success the last one did too |
| UserStore.ClashErrorOnlyAfterSelect | models/User.js:12-36 | a failing duplicate query throws its own error; the `USER_EXISTS` error with the conflict message is thrown only after the query succeeded and returned at least one row |
| UserStore.CreateWithTransaction | models/User.js:5-53 | a failure leaves the table unchanged (rollback); a success appends exactly one row built from the input, under a fresh id; the connection is released exactly once, as the last call, whenever it was obtained; every failure after the connection is obtained issues `Rollback` just before that release; a success issues `Commit` and no `Rollback`; a failed connection attempt issues no call |
| UserStore.ConflictRejectsWithoutInsert | models/User.js:12-36 | a clash throws after exactly the calls begin, select, rollback, release (so no insert and no commit), leaves the table unchanged, and (when the rollback succeeds) throws `USER_EXISTS` with the conflict message |
| UserStore.SucceedsIff | models/User.js:8-46 | the transaction succeeds exactly when no row clashes and no driver call fails before the release; the calls are then begin, select, insert, commit, release |
| UserStore.FailureIsRethrown | models/User.js:5-53 | a failed connection attempt throws its own error; once connected, a failing rollback throws its own error in place of the original; otherwise what is thrown is exactly what the try block threw; in every case it is the `USER_EXISTS` clash error or one of the driver's own errors, unchanged |
| UserStore.PreservesUniqueness | models/User.js:12-46 | run one at a time, the transaction keeps ids, emails and usernames each unique in the table |
| UserStore.AsWrittenAlwaysBlamesEmail | models/User.js:17-33 | as written, any non-empty set of clashing rows is reported as "Email address is already registered" |
| UserStore.EmailTakenIff | models/User.js:12-19 | some returned row carries the new email exactly when some table row does |
| UserStore.UsernameTakenIff | models/User.js:12-21 | some returned row carries the new username exactly when some table row does |
| UserStore.IntendedClassification | models/User.js:27-33 | as intended, the message is the "both" message exactly when both fields clash, the email message exactly when only the email clashes, and the username message exactly when only the username clashes |
| UserStore.AsWrittenMisreportsUsernameClash | models/User.js:17-35 | an existing `alice` with another email is reported as an email clash as written, and as a username clash as intended |
| Registration.Validate | server.js:20-40 | no check fails exactly when all five fields are present and non-empty, the email is accepted and the mobile is accepted |
| Registration.FailureResponse | server.js:68-81 | a thrown error becomes 409 exactly when its code is `USER_EXISTS` or `ER_DUP_ENTRY`, and 500 otherwise, always with an error body |
| Registration.Register | server.js:14-82 | the status is 201, 400, 409 or 500; the body is the created user exactly when the status is 201; the table either stays as it was or gains one row at its end, with every existing row kept in place |
| Registration.MissingFieldDecides | server.js:20-22 | a missing or empty field gives 400 with the missing-field message whatever the other fields hold, and the store is not called |
| Registration.ValidationDecides400 | server.js:18-40 | the response is 400 exactly when a check fails; the message is that of the first failing check, and the store is not called |
| Registration.FirstFailingCheckReported | server.js:20-40 | the checks run presence, then email, then mobile, stated against the literal patterns; the first failing check alone is reported |
| Registration.RejectionLeavesStoreUntouched | server.js:20-40 | the response is 400 exactly when a field is missing or one of the two patterns fails; the store is then never called and the table is unchanged |
| Registration.CreatedHidesPassword | server.js:47-66 | the store receives the hash of the password, not the raw field; a 201 echoes id, userName, name, email and mobile only; the table gains exactly that user, with the hashed password, under a fresh id |
| Registration.HashFailureMapped | server.js:47-80 | when the checks pass but hashing the password throws, the error is mapped like a store failure; the store is not called and the table is unchanged |
| Registration.OnlyCreatedChangesTable | server.js:47-81 | any response other than 201 leaves the table as it was |
| Registration.StoreFailureMapping | server.js:68-81 | `USER_EXISTS` gives 409 with the store's message; `ER_DUP_ENTRY` gives 409 with the fixed duplicate message; any other error gives 500 "Registration failed"; 201 exactly when the store succeeds; the exchange reports exactly the store's driver calls |
| Registration.SecondRegistrationConflicts | server.js:47-76 | with a working driver, registering the same body twice gives 409 the second time and leaves the table unchanged; the message names both fields as intended, and only the email as written |

## Left out

- Express setup, body parsing, environment loading and `server.listen` (server.js:1-11, 85-87) are I/O plumbing. The request body is a record of five optional strings.
- JavaScript truthiness and regular-expression coercion of non-string field values are not modelled. A field is a string or absent, and the empty string counts as absent.
- bcrypt is not modelled. The hash is an arbitrary function `Env.hash`, and its possible rejection is `Env.hashFailure`. The salt rounds play no part.
- The MySQL pool, the driver and the SQL text are replaced by an abstract table and per-call `Faults`. `ER_DUP_ENTRY` is just one driver error code.
- UserStore.Matching: the duplicate query's comparison is modelled as exact string equality. It ignores the database column's collation: no case folding, accent folding or trailing-space padding. Under a case-insensitive collation the real query also returns `Alice@gmail.com` for `alice@gmail.com`. `UserStore.Clashes`, `UserStore.PreservesUniqueness` and `UserStore.IntendedClassification` hold, and uniqueness is proved, only in this exact-equality sense.
- bcrypt draws a random salt on every call, so hashing the same password twice gives different results. The model abstracts the salt away: `Env.hash` is one fixed function. No property depends on the stored hash beyond its being `Env.hash` of the submitted password.
- The generated id is modelled as one more than the largest existing id. A real auto-increment counter can skip values, for example after a rollback. The model only relies on the id being fresh.
- Concurrent registrations and the race between the duplicate query and the insert are not modelled. Requests run one at a time, and uniqueness is proved only in that setting.
- The error log line (server.js:79) is not modelled.
- Registration.Register: its own contract gives only the range of statuses and the table's growth. The per-path behaviour is stated by the lemmas that follow it in the table above.

## Findings

| source | as written | input that shows it | evidently intended | confidence | as-written member | corrected member |
|---|---|---|---|---|---|---|
| models/User.js:19-21 | each `.some` callback names its row `user`, hiding the new user, so the email flag compares each row's email with itself and the username flag compares each row's `username` with its missing `userName` | table row `alice` / `alice@gmail.com`, new user `alice` / `aliceb@gmail.com`: the response says "Email address is already registered" | compare the rows with the new user's email and username, so a clash on the username alone reports "Username is already taken" and a clash on both reports the combined message | high, not executed | UserStore.AsWrittenMisreportsUsernameClash | UserStore.IntendedClassification |
| server.js:37 | the operator class lists its digits with commas, so it also admits `,` | `07,1234567` is accepted as a mobile number | only the digits 0, 1, 2, 4, 5, 6, 7 and 8, as the comment on line 36 says | high, not executed | Mobile.CommaOperatorAcceptedAsWritten | Mobile.IntendedMobileIsDigits |

The store and the handler take the reading as a parameter. `AsWritten` gives the
behaviour of the code as it stands. `AsIntended` gives the corrected behaviour,
and the intended properties are proved for it.

# Contact-form backend: validation and record reshaping

A Dafny model of the decision logic in the portfolio site's contact backend
(`Backend/server.js`), an Express server over an embedded sql.js database.
Three pieces are modelled:

- **Submission** (`POST /api/contact`). The five body fields `firstName`,
  `lastName`, `email`, `message` and `consent` are JavaScript values (`JsValue.Value`:
  undefined, null, boolean, integer, string) checked with ECMAScript truthiness.
  Then `email` is tested against `/^[^\s@]+@[^\s@]+\.[^\s@]+$/`. The pattern is
  written as a predicate over `seq<char>` that splits the string into the
  pattern's five parts (`EmailFormat.MatchesEmailRegex`), with `\s` spelled out
  as ECMAScript's whitespace and line-terminator code points. It is proved equal
  to a declarative reading (`EmailFormat.WellFormedEmail`): no whitespace, exactly
  one `@`, a non-empty local part, and a domain with a `.` that has a character
  on each side. The argument of `test` is converted to a string first, so the
  model converts too (`JsValue.ToJsString`) and proves that only a string
  can pass. The handler (`ContactSubmission.Submit`) returns both its reply and the
  ordered effects it had on the store (`Insert` of the row, `Save` of the
  database file). The database layer is an input (`Engine`): whether the INSERT
  succeeds, what `SELECT last_insert_rowid()` returns, and whether the file write
  succeeds.
- **Row reshaping** (`GET /api/contacts`). sql.js returns result sets of
  ordered column names and value tuples. `Records.BuildRecord` is the
  `columns.forEach` loop that fills a fresh object, as a `while` loop over a
  growing `map<string, Value>`. It is proved against `Records.RecordOf`: each
  column name maps to the cell at its last position, and `row[index]` past the
  row's end is `undefined`. `Records.BuildRecords` is the `values.map` over every row.
- **By-id decision** (`GET /api/contacts/:id`). No result set, or one without
  value rows, answers 404; otherwise the record of the first value row only.

Query results are opaque inputs (`Responses.Exec`: the call threw, or returned
its result sets). A throw becomes the handler's 500 reply.

Two consequences of the code that the model makes explicit:

- The pattern accepts any number of dots in the domain, as long as one of them
  has a character on each side (`a@b.c.d` and `a@.b.c` are accepted).
- A failure after the INSERT (the id lookup or the file write) leaves the row in
  the in-memory database unsaved and answers 500. `Submit` shows this as
  `[Insert(row)]` with a 500 reply.

## Model

| member | source | states |
|---|---|---|
| JsValue.Truthy | Backend/server.js:86 | The falsy values are exactly undefined, null, false, 0 and the empty string |
| JsValue.NatToDecimal | Backend/server.js:95 | The decimal spelling of a number, used when `test` converts an integer email, is non-empty and contains only digits |
| JsValue.DecimalRoundTrip | Backend/server.js:95 | Reading that decimal spelling back gives the original number |
| JsValue.ToJsString | Backend/server.js:95 | The string `test` sees is the email itself for a string, and contains no `@` for undefined, null, a boolean or an integer |
| EmailFormat.MatchesEmailRegex | Backend/server.js:94-95 | The anchored pattern, read as a split of the whole string into its five parts; a match has at least five characters, an `@` and a `.` |
| EmailFormat.MatchImpliesWellFormed | Backend/server.js:94-95 | Any split that matches the pattern puts the only `@` at a position after at least one character, leaves no whitespace anywhere, and leaves a domain with an inner `.` |
| EmailFormat.WellFormedImpliesMatch | Backend/server.js:94-95 | A string with no whitespace, a single `@` after a non-empty local part, and a domain with an inner `.` matches the pattern |
| EmailFormat.EmailRegexCharacterisation | Backend/server.js:94-95 | The pattern accepts a string exactly when it has no whitespace, exactly one `@` with a non-empty local part, and a domain containing a `.` with a character on each side |
| EmailFormat.OnlyAtSignCount | Backend/server.js:94 | An `@` at one position and nowhere else is a count of exactly one `@` |
| EmailFormat.AcceptedHasOneAtSign | Backend/server.js:94-99 | Every accepted email contains exactly one `@` and no whitespace |
| EmailFormat.RejectsWithoutAtSign | Backend/server.js:94-99 | A string without `@` is rejected |
| EmailFormat.RejectsWithoutDotAfterAtSign | Backend/server.js:94-99 | A string with no `.` after its first `@` is rejected |
| EmailFormat.AcceptsExample | Backend/server.js:94-95 | `a@b.com` is accepted |
| EmailFormat.RejectsExample | Backend/server.js:94-99 | `not-an-email` is rejected |
| ContactSubmission.EmailPasses | Backend/server.js:95 | `emailRegex.test(email)` after string conversion; only a string of at least five characters can pass |
| ContactSubmission.EmailPassesMeaning | Backend/server.js:94-95 | The email passes `test` exactly when it is a string and a well-formed address; no other kind of value passes |
| ContactSubmission.Validate | Backend/server.js:86-100 | The outcome is "missing field" exactly when one of the five fields is falsy, whatever the email. It is "invalid email" exactly when all are truthy and the email is not a well-formed address string. Otherwise it is "valid" |
| ContactSubmission.ConsentFlag | Backend/server.js:110 | Consent is stored as 1 when truthy and 0 otherwise |
| ContactSubmission.RowOf | Backend/server.js:107-111 | The INSERT binds the four text fields unchanged and consent as 1 exactly when it is truthy, so a form that passed the presence check is stored with consent 1 |
| ContactSubmission.LastInsertId | Backend/server.js:114-115 | `result[0].values[0][0]` throws exactly when the query threw or there is no result set or no first row; otherwise it is the first cell, `undefined` for an empty row |
| ContactSubmission.Submit | Backend/server.js:83-133 | Validation failures answer 400 and touch nothing. For a valid form: a failed INSERT answers 500 with no effect; otherwise the row is inserted first, and a failed id lookup or save answers 500 with only the insert done. The reply is 201 exactly when the form is valid, the INSERT succeeds, the id lookup yields a value and the save succeeds, and it carries that id. Inserted rows have consent 1 |
| ContactSubmission.SubmitExample | Backend/server.js:107-124 | A complete submission with a well-formed address, against a working store, inserts the row with consent 1, saves, and answers 201 with the id the store reports |
| ContactSubmission.RejectExample | Backend/server.js:94-100 | A submission whose email is `not-an-email` answers 400 "Invalid email format" and stores nothing, whatever the store does |
| Records.LastIndex | Backend/server.js:146-148 | The position returned holds the column name, and no later column has that name |
| Records.RecordOf | Backend/server.js:145-148 | A reshaped record's keys are exactly the column names, and a column that is not repeated later maps to the row value at its own index (`undefined` past the row's end) |
| Records.DistinctColumns | Backend/server.js:145-148 | With distinct column names and a row as long as the columns, each column maps to the value at its own index |
| Records.RecordOfSnoc | Backend/server.js:146-148 | Assigning one more column overwrites that key with the cell at the column's index and leaves the other keys as they were |
| Records.BuildRecord | Backend/server.js:145-148 | The loop produces the record whose keys are the column names. Each key holds the row value at that name's last index, or `undefined` past the row's end |
| Records.BuildRecords | Backend/server.js:140-151 | An empty result gives `[]`. Otherwise there is one record per value row of the first result set, in the same order, each the reshaping of its row |
| Records.FirstRecord | Backend/server.js:173-185 | There is no record exactly when there is no result set or it has no value rows. Otherwise the record is the reshaping of `values[0]` only |
| ContactQueries.ListContacts | Backend/server.js:136-164 | A failed query answers 500 "Error retrieving contacts". Otherwise the answer is 200 with one record per row, in order, and an empty list when there is no result |
| ContactQueries.GetContact | Backend/server.js:167-198 | A failed query answers 500 "Error retrieving contact". An empty result or one without rows answers 404 "Contact not found". Otherwise the answer is 200 with the record of the first row |

## Left out

- Express wiring, middleware, static file serving and the page routes (`Backend/server.js:11-19`, `209-236`): framework plumbing with no decision logic.
- The sql.js engine (`Backend/server.js:26-70`, `107-115`, `138`, `171`): SQL parsing, the schema, AUTOINCREMENT, `datetime('now')`, `ORDER BY submission_date DESC` and the `WHERE id = ?` lookup. Their outcomes are inputs to the model (`Exec`, `Engine`).
- Persistence (`saveDatabase`, file reads and writes, `Backend/server.js:28-30`, `73-79`): file I/O. It appears only as the `Save` effect and as the `saveSucceeds` input.
- Asynchronous start-up and the lifetime of the global `db` handle (`Backend/server.js:26-70`). A missing handle shows up only as a failing INSERT or query.
- The IP address and user agent stored with a contact (`Backend/server.js:104-105`): request metadata. `ContactRow` omits them.
- The health and API-info endpoints (`Backend/server.js:201-228`): a clock reading and fixed JSON.
- Non-integer numbers, NaN, objects and arrays in the request body: body fields are undefined, null, booleans, integers or strings.
- JavaScript strings are UTF-16. Without the `u` flag the pattern matches code units. A character outside the Basic Multilingual Plane is two code units here and one `char` in the model. Both count as `[^\s@]`, so the verdict does not change.
- JavaScript numbers are doubles. Body fields and cells are modelled as unbounded integers. `ToJsString` spells every integer in decimal, while JavaScript writes magnitudes from 10^21 up in exponent form, and integers above 2^53 are not exact. Neither spelling contains `@`, so the e-mail verdict is the same.
- The order of keys in a JavaScript object, and the special `__proto__` key. The record is a `map`, and the column names of the contacts table never include `__proto__`.

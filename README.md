# Show catalog: a Dafny model

This project models the back end of a small show catalog (movies, anime and
series). The back end runs an Express router over one SQLite file. The model
covers three files:

- `routes/shows.js`: the `validateShow` rules and the six `/api/shows`
  handlers, each seen as a table operation.
- `database.js`: the `shows` and `users` schemas and what the promise
  wrappers return.
- `routes/auth.js`: the login lookup.

Modules:

- `Wrappers`: `Option` (JavaScript's `undefined`, SQL's `NULL`, and
  `COALESCE` as `OrElse`) and `Result`.
- `Decimal`: decimal text of integers. It covers what `isInt()` accepts by
  default (an optional sign, then one or more ASCII digits, leading zeros
  allowed), how SQLite reads such a text when it is compared with an INTEGER
  key (`'007'` and `'+7'` are key 7, proved by `ParseIntPadded`), and the
  exact decimal rendering used for the user id in the token. That rendering
  agrees with JavaScript's for ids up to 2^53; larger ids are covered under
  "## Left out". `ParseInt(IntText(i)) == Some(i)` is proved.
- `Schema`: the `Show` and `User` rows, the category enumeration, the
  largest rowid (2^63-1), and the table constraints. For `shows`, the key is
  the row's id and lies in 1..the AUTOINCREMENT counter, and category passes
  the CHECK. For `users`, ids and emails are unique.
- `Ordering`: `ORDER BY title` under the BINARY collation. `TextLe` is
  lexicographic order on characters and is proved total, transitive and
  antisymmetric. It is used by an insertion sort that is proved sorted and a
  permutation.
- `Database`: the statements as pure functions on the table (`InsertRow`,
  `UpdateRow` with `COALESCE`, `DeleteRow`, and the two `SELECT ... ORDER BY
  title`). The class `Store` stands for the database file. Its fields are the
  `shows` map, the AUTOINCREMENT counter (`seqShows`), the connection's last
  inserted rowid, and the read-only `users` rows. Its invariant `Valid()` is
  the schema. Its methods `Insert`, `Update` and `Delete` return what
  `runAsync` resolves with (`lastID`, `changes`) or the error it rejects with.
  The constructor runs `CREATE TABLE IF NOT EXISTS` on the file it finds.
- `Http`: replies. `Ok` is 200, `Created` 201, `ValidationError` 400 (the
  express-validator error list), `NotFound` 404, `InvalidCredentials` 401,
  and `InternalError` 500; the status codes are noted beside each case.
- `Shows`: validation and the handlers. The read-only ones (`GetShow`,
  `ListShows`, `ListShowsByCategory`) are functions. The ones that write
  (`CreateShow`, `UpdateShow`, `DeleteShow`) are methods that take the store and modify it. The
  name multer gives an upload is the `file` parameter.
- `Auth`: `Login` as a function of the `users` rows and the two body fields.

Points where the model follows the code's exact behaviour rather than the
catalog's intended rules:

- The schema only says `NOT NULL` for title and description, so the store
  invariant does not require them non-empty. Non-empty title and description
  (`Validated`) is instead proved to be preserved by every handler that
  writes.
- `notEmpty()` accepts a title made only of spaces. Only an absent field or
  `""` is refused.
- `isInt()` accepts `"+7"` and `"007"` as well as `"7"`.
- Rows with equal titles come back in an order SQLite does not promise. The
  model sorts stably over rowid order, but its contracts promise only
  "sorted by title, and each stored row exactly once".

## Model

| member | source | states |
|---|---|---|
| `Shows.Validate` | show-app-backend/routes/shows.js:28-32 | The error list is empty iff title and description are non-empty and category is movie, anime or serie. Each field's error, with its message and value, is present iff that field is violated. Nothing else appears, and errors come in chain order. |
| `Shows.CreateShow` | show-app-backend/routes/shows.js:34-59 | Invalid input gives 400 with the full error list and the store is unchanged. Valid input adds exactly one row, under counter+1, which is above every earlier id; the counter and the last inserted rowid become that id. The reply is 201 with the submitted fields and image `"uploads/" + file` or null. A GET of the returned id then yields the same row. If AUTOINCREMENT is exhausted, the reply is 500 and nothing changes. |
| `Shows.GetShow` | show-app-backend/routes/shows.js:83-90 | It returns 200 with the stored row iff the path text denotes a stored key. Otherwise it returns 404 "Show not found". |
| `Shows.ListShows` | show-app-backend/routes/shows.js:62-65 | Always 200. The list is sorted by title, and each stored row occurs in it exactly once; nothing else occurs. |
| `Shows.ListShowsByCategory` | show-app-backend/routes/shows.js:72-76 | Always 200. The list is sorted by title and holds exactly the stored rows of that category, once each. An unknown category gives `[]`. |
| `Shows.UpdateShow` | show-app-backend/routes/shows.js:97-117 | Invalid input gives 400 even for a missing id, and the store is unchanged. For an existing id, title, description and category are overwritten. The image becomes `"/uploads/" + file`, or the stored image is kept when there is no file. The reply echoes the path id and the submitted image. A missing id gives 404 and the table is unchanged. No other row changes, and the counter and last inserted rowid stay. |
| `Shows.DeleteShow` | show-app-backend/routes/shows.js:124-139 | Text that `isInt()` refuses gives 400 "ID must be an integer" and the store is unchanged. Otherwise exactly that key is removed, and the counter and last inserted rowid stay. The reply is 200 if the key was stored, else 404. |
| `Shows.DeleteTwice` | show-app-backend/routes/shows.js:133-137 | A second DELETE of the same integer id always returns 404. |
| `Database.Store.Open` | show-app-backend/database.js:34-55 | The start-up CREATE TABLE statements keep an existing file's rows and give empty tables and counter 0 for a new file. The schema invariant holds afterwards. |
| `Database.CreateTablesIfNotExists` | show-app-backend/database.js:36-37 | For an existing file the contents are returned unchanged. For a new file the tables and counter are empty. |
| `Database.CreateTablesIdempotent` | show-app-backend/database.js:47-48 | Running the start-up statements twice equals running them once. |
| `Database.Store.Insert` | show-app-backend/database.js:38-41 | The INSERT through `runAsync`. If the counter is at 2^63-1, it fails with Full. If the category fails the CHECK, it fails with a constraint error. Either failure leaves nothing changed. Otherwise it resolves with `lastID` = counter+1 and `changes` 1, the row is added under that id, and the counter advances. |
| `Database.Store.Update` | show-app-backend/routes/shows.js:108-111 | The UPDATE through `runAsync`. It fails on the CHECK only when the row exists and the category is bad. Otherwise the table becomes `UpdateRow(old)` and the call resolves with that `changes`. The counter and last rowid are untouched. |
| `Database.Store.Delete` | show-app-backend/database.js:5-12 | The DELETE through `runAsync`. The table becomes `DeleteRow(old)`, `changes` is 1 or 0, and `lastID` is the connection's last inserted rowid. |
| `Database.InsertRow` | show-app-backend/routes/shows.js:44-47 | The keys grow by exactly the new id, and `getAsync` of it yields the inserted fields. Every other row is unchanged. |
| `Database.UpdateRow` | show-app-backend/routes/shows.js:109 | `changes` is 1 iff the id is stored, and with 0 changes the table is unchanged. The keys stay the same and the other rows are unchanged. The target gets the new title, description and category, and `COALESCE(new, old)` for the image. |
| `Database.DeleteRow` | show-app-backend/routes/shows.js:133 | The keys become the old keys minus the id, and the remaining rows are unchanged. `changes` is 1 iff the id was stored. |
| `Database.DeleteRowTwice` | show-app-backend/routes/shows.js:135-137 | A second DELETE of an id changes 0 rows and leaves the table unchanged. |
| `Database.RowsBelowCount` | show-app-backend/database.js:25-32 | The rowid scan that `allAsync` returns holds each stored row with a key below n exactly once, and nothing else. |
| `Database.OfCategoryCount` | show-app-backend/routes/shows.js:75 | `WHERE category = ?` keeps each row of that category as often as it occurs and drops every other row. |
| `Database.SelectAllSpec` | show-app-backend/routes/shows.js:64 | `SELECT * ... ORDER BY title` is sorted and is a permutation of the stored rows. |
| `Database.SelectByCategorySpec` | show-app-backend/routes/shows.js:75 | The category SELECT is sorted and is exactly the stored rows of that category. It is empty for a value outside the CHECK's set. |
| `Ordering.SortByTitleSpec` | show-app-backend/routes/shows.js:64 | Ordering by title yields a title-sorted permutation of its input. |
| `Ordering.InsertByTitleSpec` | show-app-backend/routes/shows.js:64 | Inserting a row into a sorted list keeps it sorted and adds exactly that row. |
| `Ordering.TextLeTotal` | show-app-backend/routes/shows.js:64 | Any two titles are comparable under the collation. |
| `Ordering.TextLeTransitive` | show-app-backend/routes/shows.js:64 | The collation order is transitive. |
| `Ordering.TextLeAntisymmetric` | show-app-backend/routes/shows.js:64 | Titles that order both ways are equal, so ties are exactly equal titles. |
| `Decimal.ParseInt` | show-app-backend/routes/shows.js:125 | It yields a value iff the text is an optionally signed, non-empty run of ASCII digits. The value's sign follows the text's sign. |
| `Decimal.ParseIntPadded` | show-app-backend/routes/shows.js:133 | Leading zeros leave the key unchanged: the text `0…0` + digits of n denotes n, with a `+` still n, and with a `-` it denotes -n. |
| `Decimal.ParseIntText` | show-app-backend/routes/shows.js:86 | The decimal text of any integer is accepted as an integer, and it denotes that integer again. |
| `Decimal.NatText` | show-app-backend/routes/auth.js:22 | The rendering of a number is a non-empty run of digits with no leading zero (except for 0 itself). |
| `Decimal.NatTextValue` | show-app-backend/routes/auth.js:22 | Reading the rendered digits back gives the number. |
| `Decimal.IntTextInjective` | show-app-backend/routes/auth.js:22 | Distinct integers render as distinct strings. |
| `Auth.FirstMatch` | show-app-backend/routes/auth.js:12 | `getAsync` yields a matching user row if there is one. It yields undefined iff no row has both that email and that password. An absent field matches nothing. |
| `Auth.Login` | show-app-backend/routes/auth.js:12-23 | Success iff some user row has exactly that email and password. Success gives "Login successful" and the token `"dummy-token-"` + the matching user's id. Failure gives 401 "Invalid credentials" and no token. As a function of the rows, it writes nothing. |
| `Auth.LoginUnique` | show-app-backend/database.js:50 | Emails are unique, so the token is that of the one matching user: the outcome depends only on email, password and the user rows. |
| `Auth.TokenIdentifiesUser` | show-app-backend/routes/auth.js:22 | Distinct user ids give distinct tokens, and the id can be parsed back from the token. |

## Left out

- The HTTP server in `server.js` is not part of this model: bootstrap, CORS, body parsing, static files, the port and the generic 500 middleware.
- Multer's disk storage is left out: the file write and the `Date.now()` filename prefix. The generated filename arrives as the `file` parameter.
- The file filter is left out. It accepts every file, and its allow-list check is commented out.
- The routes never delete the file of a show whose image is replaced or that is deleted; since file writes are outside the model, so is this leak.
- Store failures other than the two a statement can cause here (the CHECK constraint, and the AUTOINCREMENT counter reaching 2^63-1) are left out. These are disk and I/O errors, as well as SQLITE_BUSY. Only the 500 reply of POST is reachable in the model. `Shows.UpdateShow` keeps a 500 branch for a failed UPDATE, which validation makes unreachable; `Shows.GetShow`, `Shows.ListShows`, `Shows.ListShowsByCategory` and `Shows.DeleteShow` have no 500 branch, because their statements cannot fail in the model.
- Logging (`console.log`, `console.error`) and the promise/callback plumbing of the driver are left out.
- `Decimal.ParseInt` does not model SQLite's other numeric conversions of a path id. A text such as `"1.0"`, `" 1"` or `"1e0"` matches no row in the model. SQLite would convert it to key 1.
- Collation and affinity: only the BINARY collation over characters is modelled. Of SQLite's type affinity, only the conversion of a signed digit string to an integer key is modelled (`'007'` and `'+7'` are key 7); its other conversions are listed on the `Decimal.ParseInt` line.
- For rows with equal titles, `Shows.ListShows` and `Shows.ListShowsByCategory` promise no relative order. The concrete order the model picks, a stable sort over rowid order, is one SQLite's result may or may not have: SQLite does not promise any order for ties.
- The `created_at` default timestamp is a field of `User` set by whoever provisioned the row. Users are never created through the API, so no user-inserting operation is modelled.
- Request fields are modelled as strings only (or absent). A JSON body can also carry numbers or booleans; how the validators stringify them, how the TEXT columns store them and how the login query compares them are left out, as is JSON serialisation of replies.
- Auth.Login: the token renders the user id exactly. The driver hands the id to JavaScript as a double, so for ids above 2^53 the program's token holds the rounded value and can differ from the model's.
- Auth.TokenIdentifiesUser: proved for the model's exact rendering. In the program, distinct user ids above 2^53 can round to the same double and share a token.
- Decimal.IntTextInjective: holds of the exact rendering only. It does not hold of JavaScript's rendering of ids above 2^53, which are rounded before printing.
- Decimal.NatTextValue: reads back the exact rendering. The digits the program prints for an id above 2^53 are those of the rounded double and need not read back to the id.
- Shows.CreateShow: the reply id is `lastID` exactly. Above 2^53 the program replies with the rounded double, which may not name the inserted row, so the "GET of the returned id" clause speaks of the exact id.

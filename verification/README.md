# hotel-back request handlers, modelled in Dafny

The hotel backend (`src/server.ts`) is an Express server over one MySQL
connection and an upload directory. This project models its request
handlers as a small state machine. The state (`Server.State`) holds three
auto-increment tables (`images`, `bookings`, `users`) and the set of file
names in the upload directory. Each handler is a pure function from a state,
the request fields and the outcomes of the external calls to a
`Transition`: the next state and the response.

Every call into a library is represented like this:

- a MySQL query is a `DbOutcome` (ok or error);
- `fs.unlink` is an `FsOutcome`, and unlinking a file that is not in the directory always fails;
- `bcrypt.hash` is a `string -> string` parameter;
- `bcrypt.compare` is a `(string, string) -> bool` parameter;
- a JWT is its claim set, `Claims(id, username)`.

An error thrown inside a query callback is modelled as `Crash`: no reply
is sent and the process goes down. The same goes for a promise rejection
that nothing catches.

Files:

- `options.dfy`: an optional request field.
- `js.dfy`: JSON request values, JavaScript truthiness, `typeof`, and `x || ''`.
- `tables.dfy`: an AUTO_INCREMENT table with lookup, insert and delete by id. Rows stay in insertion order and the counter supplies the next `insertId`.
- `server.dfy`: the state, the response bodies, the table invariant `Valid` and the image/file invariant `Consistent`.
- `images.dfy`: `POST /upload`, `GET /images`, `DELETE /images/:id`.
- `bookings.dfy`: `POST /bookings`.
- `auth.dfy`: `POST /register`, `POST /login`.

Three behaviours of the code that a reader might expect otherwise:

- Registering an existing username is not answered with a conflict status. A rejected insert is the generic 500 "Error registering user".
- Deleting an image whose file is already missing does not "self-heal". The unlink fails, the answer is 500 "Error deleting file", and the row stays.
- An empty category is rejected on upload, because JavaScript treats `''` as falsy. The same rule means an empty `category` query parameter lists every image.

## Model

| member | source | states |
|---|---|---|
| Images.Upload | src/server.ts:44-66 | A missing file gives 400 "No file uploaded" and nothing changes. A file was already written by the middleware, so its name is in the blob set whatever happens next. With a file but no category the answer is 400 "Category is required" and no row. The reply is 200 exactly when file, category and insert all succeed. An insert error crashes the process. On success the new row holds the stored name, the category, and the description field when it is non-empty (else the empty string), under the returned id, and all other ids are unchanged. The table invariant is preserved. |
| Images.WithCategory | src/server.ts:72-78 | The filtered rows are exactly the rows whose category equals the parameter. |
| Images.List | src/server.ts:69-84 | The state never changes. A query error crashes the process. Otherwise a row is listed iff it is in the table and, when the category parameter is non-empty, has that category. |
| Images.Unlink | src/server.ts:107-111 | The unlink succeeds iff the file is in the directory and the filesystem reports no error; a missing file always fails. On success exactly that name is gone. |
| Images.Delete | src/server.ts:88-125 | A select error gives 500 with no change. An unknown id gives 404 with no change. A failed unlink, including a file that is already missing, gives 500 "Error deleting file" with no change. 200 happens exactly when select, unlink and row delete all succeed. Only then does the row go, and never before its file. The only file that can disappear is the row's own. A row-delete failure leaves the row and removes the file. |
| Images.UploadThenList | src/server.ts:59-83 | After a successful upload, the new row is listed under its category and in the full list. It is not listed under any other non-empty category. |
| Images.UploadThenDelete | src/server.ts:59-121 | Deleting a freshly uploaded image, with every step succeeding, answers 200. The image rows are back to those before the upload, and the file is gone. |
| Images.MissingFileKeepsRow | src/server.ts:107-111 | If the row's file is missing, the delete answers "Error deleting file" and the state is unchanged, for every unlink and database outcome. |
| Images.PartialDeleteDangles | src/server.ts:113-119 | A row-delete failure after a successful unlink answers 500 "Error deleting record". It leaves a row whose file is gone. |
| Images.FailedUploadOrphansFile | src/server.ts:32-62 | An upload that stores no row leaves its file in the directory with no row naming it. |
| Images.UploadKeepsConsistent | src/server.ts:44-66 | Every upload outcome keeps each row's file present. |
| Images.DeleteKeepsConsistent | src/server.ts:88-125 | If no other row shares the file, every delete outcome except the record-delete failure keeps each remaining row's file present. |
| Images.SharedFileDangles | src/server.ts:104-121 | Counterexample: with two rows naming one file, a successful delete of one leaves the other without its file. |
| Bookings.CreateBooking | src/server.ts:153-186 | The answer is 400 "Invalid data", with no change, iff a date is falsy, `guests` is not a number or `promo_code` is not a boolean. A valid request whose insert fails gives 500 "Database error" with no change. Otherwise the answer is 201 with the new id. The stored row has the given dates and guest count, and `promo_code` is 1 iff it was `true`, else 0. The invariant that the column holds only 1 or 0 is preserved. |
| Auth.Register | src/server.ts:210-235 | A missing or empty username or password gives 400 with no change, before any hash or insert. An insert error gives 500 with no change. The answer is never 409. On success the answer is 201 with token claims `{id: insertId, username}`, and the stored row holds `hash(password)`. |
| Auth.FirstUser | src/server.ts:241-247 | Returns the first row with the username, or none if no row has it. |
| Auth.Login | src/server.ts:238-259 | The state never changes. The answer is 401 "Неверные данные" iff the query failed, no row has the username (a missing username matches none), or the comparison rejects the password. A missing password for a known username gets no reply. A 200 carries the id and username of the first row with that username (`results[0]`), and nothing from the hash. |
| Auth.RegisterThenLogin | src/server.ts:218-257 | If the name is fresh and the comparison accepts the password against its own hash, login after registration returns the same token the registration returned. |
| Auth.WrongPasswordLooksUnknown | src/server.ts:243-252 | After registration, a rejected password gets the same reply as an unknown username. |
| Auth.SecondRegistrationShadowed | src/server.ts:219-247 | Registering a name twice either fails with the generic 500 or adds a second row. Either way, every login attempt for the name (any password, comparison and query outcome) gets exactly the response it got after the first registration. |
| Auth.Account | src/server.ts:241-247 | A missing username (bound as NULL) finds no row. Otherwise the result is the first row with that username, or none iff no row has it. |
| Tables.Find | src/server.ts:92-104 | Finds nothing iff no row has the id. Otherwise the result is the data of a row with that id. |
| Tables.Insert | src/server.ts:59-64 | The new row is found under the old counter value, which is the returned `insertId`. Every other id's lookup is unchanged. The counter grows by one and the id discipline is preserved. |
| Tables.Remove | src/server.ts:114-121 | Afterwards the id finds nothing. Every other id's lookup is unchanged and the id discipline is preserved. |
| Tables.InsertThenRemove | src/server.ts:59-121 | Removing the row an insert just added gives back the previous rows. |
| Js.TypeOf | src/server.ts:159-160 | `typeof` answers "number", "boolean" or "string" exactly for values of that JSON kind. |

## Left out

- Express, CORS, body-parser, static file serving and the listen call (src/server.ts:12-16, 262-265): framework wiring with no per-request logic.
- The MySQL connection and the SQL text (src/server.ts:19-29). Each query is a table operation plus an ok/error outcome.
- Multer's storage settings and file naming (src/server.ts:32-41). The stored name is an input. Nothing makes it unique; `Images.SharedFileDangles` shows what a repeated name does.
- The directory mismatch: files are written under `src/uploads` but unlinked under `__dirname/uploads`. This depends on the deployment layout, so the upload directory is one flat set of names.
- bcrypt's hashing and salting, JWT signing, the secret and the one-hour expiry. Hashing and comparison are caller-supplied functions and a token is its claims; signatures and time are not modelled.
- Auth.Register: only missing or string fields are modelled. Non-string JSON values for username or password are not, and neither is the `catch` branch answering 500 "Server error" (src/server.ts:231-234), which only a throwing hash call reaches.
- Auth.Login: usernames are compared exactly. MySQL collation rules (case, trailing spaces) are not modelled. A missing password for a known user is modelled as no reply: `bcrypt.compare` rejects the non-string argument inside an async callback that nothing catches.
- Auth.Login: only missing or string fields are modelled. A numeric username such as `0` is bound unquoted, and MySQL's numeric comparison can then match rows with other names. A numeric password makes `bcrypt.compare` reject, the same crash as a missing one. Neither is modelled.
- Auth.Login: `results[0]` of a SELECT with no ORDER BY (src/server.ts:241-247) is taken to be the earliest inserted row with that name. MySQL does not promise that order; `Auth.Account`, `Auth.FirstUser` and `Auth.SecondRegistrationShadowed` rely on it too.
- Images.List: the category match is exact string equality, not MySQL collation. Rows come back in table order, although SQL promises no order; the contract speaks only of membership.
- Images.List: the `category` query parameter is missing or one string. A repeated parameter (`?category=a&category=b`) arrives as an array, which is truthy and which mysql2 expands into an invalid `= 'a', 'b'` clause, so the query fails and the process crashes. That case is not modelled.
- Images.Delete: the `:id` path parameter is taken as a natural number. MySQL's conversion of arbitrary strings to integers is not modelled.
- Images.Upload: multipart fields are missing or a single string; a repeated field arriving as an array is not modelled.
- Tables.Insert: AUTO_INCREMENT values used up by failed inserts are not modelled. Ids come from a counter that grows only on success.
- Bookings.CreateBooking: numbers are reals. `JSON.parse` turns an out-of-range number literal such as `1e400` into plus or minus Infinity, which passes the `typeof` check (src/server.ts:159) and reaches the insert. The model's `real` cannot hold it, so that case is not modelled.
- `GET /bookings` (src/server.ts:188-203) and the commented-out `PUT /images/:id` (src/server.ts:128-147): not part of this model.
- Console logging, and interleavings of concurrent requests: each handler is one atomic transition.

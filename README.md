# noteAPIs core in Dafny

This project models the notes service of the noteAPIs repository:

- The authentication gate `authenticateToken` and the token helper `generateToken`.
- The account workflow: `register` and `login` over the user repository.
- The two note stores:
  - the in-memory notes controllers that the router wires in;
  - the repository over the `notes` table, with paginated listing newest first.
- The note body validators and the Express error handler.

Each source file is one module:

| module | file |
|---|---|
| `Js` | JavaScript values, truthiness, `Number()` on a route parameter (shared) |
| `AuthMiddleware` | `authenticateToken`, `generateToken` |
| `UserRepository` | the `users` table and its four operations |
| `AuthController` | `register`, `login` |
| `NoteRepository` | the `notes` table and its five operations |
| `NoteControllers` | the module-level `notes` array and `noteId` counter |
| `NoteMiddleware` | `validatesCreatedNotes`, `validatesUpdatedNotes` |
| `ErrorHandling` | `errorHandler` |

Three kinds of state are classes whose methods change their fields:

- The user table is `UserStore`: a map from username to the rest of the row, plus the auto-increment counter. The map makes username uniqueness structural.
- The notes table is `NoteTable`: rows in insertion order and the auto-increment counter.
- The in-memory controllers are `NoteBoard`: the `notes` array, the `noteId` counter, and a ghost set of every id ever issued.

One request through the gate is an `Exchange`. It holds `req.user`, the responses written, and the number of `next` calls.

Foreign code becomes parameters supplied by the caller:

- `jwt.sign` is a `Signer`. It also takes the instant the token is issued (its `iat`), so tokens signed at different instants can differ.
- `jwt.verify` is a `Verifier` that answers with a claim or the thrown error's `name`.
- `bcrypt.hash` is a `Hasher` and `bcrypt.compare` is a `Comparer`.
- The salt, both clocks and the `JWT_SECRET` (an `Option<string>`) are plain parameters.

Pure parts are functions, and their properties are lemmas:

- token extraction and the gate's decision;
- `login`, which only reads the store;
- `getAll` and `getById`;
- the validators and the error handler.

## Where the code departs from its stated intent

The model follows the code in each case.

- **The `Bearer` scheme.** The comment on `authenticateToken` (src/middleware/authMiddleware.js:11) says it expects the header as `Bearer <token>`. The code takes the second space-separated field and never looks at the first word. `AuthMiddleware.SchemeIgnored` proves that any scheme word behaves like `Bearer`.
- **A duplicate insert in `register`.** An existing username found by the lookup answers 409. A unique-constraint violation raised by the insert itself lands in the `catch` and answers 500 instead. Sequentially this cannot happen, because the lookup runs first. `UserRepository.UserStore.Create` still models the rejection (`UniqueViolation`). `AuthController.Register` maps it to 500, as written.
- **Which notes store is live.** The router (src/routes/noteRouters.js:3-9) wires in the in-memory controllers of src/controllers/noteControllers.js. No route reaches the repository over the `notes` table. Both are modelled.
- **Enumeration resistance in `login`.** The same 401 "Invalid username or password" for an unknown username and for a wrong password (src/controllers/authController.js:60, 66) keeps an attacker from learning which usernames exist. A truthy password that is not a string breaks this. For a known user, `bcrypt.compare` throws, and the `catch` answers 500 "Failed to login" (lines 64, 78-80). For an unknown user the answer is the 401 of line 60. `AuthController.NonStringPasswordRevealsUser` proves both answers.
- **The password check runs outside the `try`.** The `catch` in `register` is meant to turn every fault into 500 "Failed to register user" (src/controllers/authController.js:38-41). But `password.length < 6` (line 16) runs before the `try` begins. A `length` such as `{"toString":0}` makes that comparison throw a `TypeError`, so the handler sends no response. `AuthController.Register` answers `Err(TypeError)` for exactly these bodies, and `AuthController.TooShortOtherValues` shows two of them.
- **The authentication routes are not mounted.** src/app.js:7 mounts only `/notes`. The notes router (src/routes/noteRouters.js:17-21) applies no `authenticateToken`. So as written the gate guards nothing, and `register` and `login` are reachable only when called directly. `AuthController.RegisterLoginAuthenticate` follows the scenario of test/auth.test.js:153-176. That scenario calls these functions together, though the application never wires them together.

## Model

| member | source | states |
|---|---|---|
| AuthMiddleware.Split | src/middleware/authMiddleware.js:16 | `split(" ")` yields at least one field, and no field contains a space |
| AuthMiddleware.JoinSplit | src/middleware/authMiddleware.js:16 | joining the fields of a header with single spaces gives the header back |
| AuthMiddleware.SplitJoin | src/middleware/authMiddleware.js:16 | splitting a join of space-free fields gives exactly those fields |
| AuthMiddleware.SplitWord | src/middleware/authMiddleware.js:16 | a space-free word followed by the end or by a space becomes the first field whole |
| AuthMiddleware.ExtractToken | src/middleware/authMiddleware.js:15-16 | the token is the second space-separated field of the header when non-empty; a token comes only from a header and is non-empty and space-free; properties in `SecondFieldIsToken`, `NoTokenCases`, `ExtractedTokenShape` |
| AuthMiddleware.SecondFieldIsToken | src/middleware/authMiddleware.js:16 | for `<scheme> <token>[ …]` the token is exactly the second field, whatever the scheme word |
| AuthMiddleware.NoTokenCases | src/middleware/authMiddleware.js:15-20 | no header, a bare word without a space, `"<scheme> "` and two spaces after the scheme all yield no token |
| AuthMiddleware.ExtractedTokenShape | src/middleware/authMiddleware.js:16-20 | an extracted token is non-empty and space-free, and the header contains a space |
| AuthMiddleware.Configured | src/middleware/authMiddleware.js:22 | `!JWT_SECRET` fails exactly for an unset or empty secret; properties in `SecretCheckedBeforeVerify` and `GenerateTokenOutcome` |
| AuthMiddleware.MissingTokenFirst | src/middleware/authMiddleware.js:18-20 | with no token the answer is 401 "Access token required", whatever the secret and the verifier |
| AuthMiddleware.SecretCheckedBeforeVerify | src/middleware/authMiddleware.js:22-24 | with a token and no usable secret the answer is 500 "Server configuration error", and the verifier has no influence |
| AuthMiddleware.Classify | src/middleware/authMiddleware.js:32-40 | a verification error always rejects, with 401, 403 or 500, and with 401 exactly for `TokenExpiredError` |
| AuthMiddleware.Authenticate | src/middleware/authMiddleware.js:15-40 | the gate's decision: token check, then secret check, then the verifier's verdict; continuing needs a token and a usable secret, and a rejection is 401, 403 or 500; properties in `ContinueIff`, `MissingTokenFirst`, `SecretCheckedBeforeVerify`, `FailureKinds`, `RejectionTaxonomy` |
| AuthMiddleware.ContinueIff | src/middleware/authMiddleware.js:26-31 | the request continues with claim `c` exactly when a token was extracted, the secret is set and the verifier decoded `c` |
| AuthMiddleware.FailureKinds | src/middleware/authMiddleware.js:32-40 | `TokenExpiredError` gives 401 "Token has expired", `JsonWebTokenError` gives 403 "Invalid token", any other error name gives 500 "Token verification failed" |
| AuthMiddleware.RejectionTaxonomy | src/middleware/authMiddleware.js:18-40 | every rejection is one of the five fixed status and message pairs |
| AuthMiddleware.SchemeIgnored | src/middleware/authMiddleware.js:16 | any space-free scheme word followed by a token decides like `Bearer` and the same token |
| AuthMiddleware.AuthenticateToken | src/middleware/authMiddleware.js:13-41 | exactly one of "call `next`" and "write one response" happens; on success `req.user` is the decoded claim and no response is written; on rejection `req.user` is untouched and the single response is the gate's answer |
| AuthMiddleware.GenerateToken | src/middleware/authMiddleware.js:46-51 | fails exactly when the secret is unset or empty |
| AuthMiddleware.GenerateTokenOutcome | src/middleware/authMiddleware.js:46-51 | `generateToken` fails exactly when the secret is unset or empty, and otherwise signs the payload at the given instant with the secret and the default expiry "1h" |
| AuthMiddleware.IssuedTokenAccepted | src/middleware/authMiddleware.js:13-51 | if signing at an instant and verifying agree, a token issued at that instant by `generateToken` and sent as `Bearer <token>` passes the gate with its claim |
| UserRepository.UserStore.Create | src/repositories/userRepository.js:8-19 | a non-string password is refused before any insert, as is a taken username; otherwise exactly one row is added under the username, holding `hash(password, 10, salt)`, so only the hasher's output is stored, and its id is the counter, which exceeds every existing id; the result is only `{ id, username }` |
| UserRepository.UserStore.FindByUsername | src/repositories/userRepository.js:24-27 | a row is found exactly when that exact username is stored, and it is that user's whole row |
| UserRepository.UserStore.FindById | src/repositories/userRepository.js:32-39 | no row exactly when no user has that id; otherwise the user with that id, with no password field |
| UserRepository.VerifyPassword | src/repositories/userRepository.js:44-46 | exactly bcrypt's verdict for a string password, and a failure (a throw) for any other value |
| UserRepository.CreatedUserFound | src/repositories/userRepository.js:24-39 | a stored user is found by name with its whole row and by id without its password |
| AuthController.BothPresent | src/controllers/authController.js:12-14 | both fields are truthy; properties in `Register` and `LoginValidatesFirst` |
| AuthController.TooShort | src/controllers/authController.js:16-18 | the password's `length`, converted to a number as `<` does, is below 6, and the check throws a `TypeError` when that conversion throws; properties in `StringTooShortIff` and `TooShortOtherValues` |
| AuthController.StringTooShortIff | src/controllers/authController.js:16 | a string password is too short exactly when it has fewer than 6 characters |
| AuthController.TooShortOtherValues | src/controllers/authController.js:16 | an object whose `length` is 3, "3" or `null` is too short, as is an empty array; an object without `length`, a `length` of 6 and a boolean are not; a `length` that is an object with its own `toString` field, or an array holding one, makes the check throw |
| AuthController.Register | src/controllers/authController.js:8-42 | missing fields give 400. Then a password whose `length` conversion throws gives no response at all: the `TypeError` escapes before the `try`. Then a `length` that compares below 6 gives 400, and a taken username gives 409. Each of these leaves the store unchanged. A fresh user is inserted with its hash and answers 201 with `{ id, username }` and a token over `{ userId, username }` signed at the given instant with expiry 1h. An unset or empty secret, the only fault the model gives token signing, answers 500 with the user still stored. Every reply that is sent has status 201, 400, 409 or 500 |
| AuthController.Login | src/controllers/authController.js:48-81 | a success is 200 and carries the stored user's id and the username given, and nothing of the password; properties in `LoginSucceedsIff`, `LoginStatuses`, `EnumerationResistance` and the lemmas below |
| AuthController.LoginSucceedsIff | src/controllers/authController.js:48-81 | login answers 200 exactly for present, stored, bcrypt-matching credentials and a usable secret, and then the body carries only id, username and the token |
| AuthController.LoginStatuses | src/controllers/authController.js:48-81 | login answers 200, 400, 401 or 500 and nothing else |
| AuthController.LoginValidatesFirst | src/controllers/authController.js:52-55 | missing fields give 400 whatever the store holds |
| AuthController.EnumerationResistance | src/controllers/authController.js:58-67 | an unknown username and a known username with a wrong string password get the identical 401 "Invalid username or password" |
| AuthController.NonStringPasswordRevealsUser | src/controllers/authController.js:58-80 | with a truthy non-string password, a known username answers 500 "Failed to login" and an unknown one 401 "Invalid username or password", so the status reveals whether the user exists |
| AuthController.LoginPasswordOnlyThroughCompare | src/controllers/authController.js:63-76 | two passwords with the same bcrypt verdict get the same answer, so the password cannot appear in it |
| AuthController.LoginAfterRegister | src/controllers/authController.js:58-76 | a user stored with `hash(pw)` logs in with `pw` and receives a token over its own id and username |
| AuthController.RegisterLoginAuthenticate | test/auth.test.js:153-176 | registering a fresh user answers 201 with a token signed at the registration instant; logging in later with the same password answers 200 with the same user and a token signed at the login instant; each token, while valid, passes the gate with the new user's claim |
| NoteRepository.LexLe | src/repositories/noteRepository.js:10 | SQLite's BINARY text collation on `createdAt`: code point by code point, a proper prefix first; properties in `LexLeTotal` and `LexLeTrans` |
| NoteRepository.LexLeTotal | src/repositories/noteRepository.js:10 | any two timestamps are comparable in the text collation |
| NoteRepository.LexLeTrans | src/repositories/noteRepository.js:10 | the text collation is transitive |
| NoteRepository.InsertDescSorted | src/repositories/noteRepository.js:10 | inserting a row into a newest-first list keeps it newest first |
| NoteRepository.InsertDescPermutes | src/repositories/noteRepository.js:10 | inserting a row adds exactly that row |
| NoteRepository.SortDescCorrect | src/repositories/noteRepository.js:10 | the listing order is a permutation of the table, newest first |
| NoteRepository.SortDesc | src/repositories/noteRepository.js:10 | the listing order, newest first, keeping table order among equal timestamps; it has as many rows as the table; properties in `SortDescCorrect` and `SortDescStable` |
| NoteRepository.SortDescStable | src/repositories/noteRepository.js:10 | for every timestamp, the rows stamped with it appear in the listing in table order |
| NoteRepository.InsertDescStamped | src/repositories/noteRepository.js:10 | insertion places a row before every row that has its timestamp, and leaves the order of other timestamps' rows alone |
| NoteRepository.LexLeRefl | src/repositories/noteRepository.js:10 | the text collation is reflexive |
| NoteRepository.CeilDiv | src/repositories/noteRepository.js:16 | `Math.ceil(total / limit)` as integer division; properties in `CeilDivIsLeast` and `BeforeLastPageIff` |
| NoteRepository.CeilDivIsLeast | src/repositories/noteRepository.js:16 | `ceil(a / b)` pages of `b` hold `a` items and one page fewer does not; no items means no pages |
| NoteRepository.BeforeLastPageIff | src/repositories/noteRepository.js:25 | `p < ceil(a / b)` exactly when `p * b < a` |
| NoteRepository.FindRow | src/repositories/noteRepository.js:38 | the index found holds a row with that id, and none is found exactly when no row has it |
| NoteRepository.UniqueIdAt | src/db/db.js:29 | with increasing ids, the row at an index is the only one with its id |
| NoteRepository.NoteTable.GetById | src/repositories/noteRepository.js:37-47 | null exactly when no row has the id; otherwise a stored row with that id |
| NoteRepository.NoteTable.Create | src/repositories/noteRepository.js:32-35 | exactly one row is appended, with the assigned id and the given title and content; that id exceeds every existing one; the result carries the application clock as `createdAt` |
| NoteRepository.NoteTable.UpdateById | src/repositories/noteRepository.js:49-76 | an absent id gives null and no change; no supplied field returns the row as stored and changes nothing; otherwise only that row changes, each supplied field replaces its column and an absent one keeps it, and the result is the row as read back |
| NoteRepository.NoteTable.DeleteById | src/repositories/noteRepository.js:78-81 | true exactly when a row with the id existed; afterwards no row has it, and the other rows keep their order |
| NoteRepository.NoteTable.GetAll | src/repositories/noteRepository.js:5-29 | one page of the listing and its counts, with defaults page 1 and limit 10; properties in `GetAllWindow`, `GetAllSortedRows`, `GetAllCounts`, `GetAllNeighbours`, `GetAllNonEmptyIff`, `PagesCoverListing` |
| NoteRepository.GetAllWindow | src/repositories/noteRepository.js:5-12 | a page holds at most `limit` notes, those at positions `offset`, `offset + 1`, … of the newest-first listing, with `offset = (page - 1) * limit`; it is empty past the end |
| NoteRepository.GetAllSortedRows | src/repositories/noteRepository.js:8-12 | every note on a page is a row of the table, and a page is newest first |
| NoteRepository.GetAllCounts | src/repositories/noteRepository.js:14-24 | `total` is the number of rows and `totalPages` is the least number of `limit`-sized pages that hold them; `page` and `limit` are echoed |
| NoteRepository.GetAllNeighbours | src/repositories/noteRepository.js:25-26 | `hasNextPage` holds exactly when rows remain after this page, and `hasPrevPage` exactly when rows were skipped before it |
| NoteRepository.GetAllNonEmptyIff | src/repositories/noteRepository.js:5-26 | a page has notes exactly when `page <= totalPages` |
| NoteRepository.PagesUpToPrefix | src/repositories/noteRepository.js:5-12 | pages 1 to k, one after another, are the first `k * limit` notes of the listing |
| NoteRepository.PagesCoverListing | src/repositories/noteRepository.js:5-16 | pages 1 to `totalPages`, all read from one table state, list every note exactly once, newest first, given one fixed order among notes with equal `createdAt` (here table order; see "Left out") |
| NoteControllers.FindIndex | src/controllers/noteControllers.js:46 | `findIndex` gives the first index whose note has the id, and -1 (`None`) exactly when none has |
| NoteControllers.Lookup | src/controllers/noteControllers.js:25-26 | the index designated by a route parameter holds a note whose id is `Number(param)`; none exactly when the parameter is not a number or no note has that id |
| NoteControllers.Patch | src/controllers/noteControllers.js:38-39 | the in-place edit of `updateNotes`; properties in `PatchProperties` |
| NoteControllers.PatchProperties | src/controllers/noteControllers.js:38-39 | a patch keeps id and `createdAt`, is the identity when both fields are falsy, and is idempotent |
| NoteControllers.NoteBoard.constructor | src/controllers/noteControllers.js:1-2 | the module's initial state: no notes, the counter at 1, and no id issued yet; the board invariant holds |
| NoteControllers.NoteBoard.CreateNotes | src/controllers/noteControllers.js:5-18 | the note takes the counter as its id, an id never issued before; the counter moves on; the note is appended after the unchanged earlier notes; the answer is 201 with the note |
| NoteControllers.NoteBoard.GetNotes | src/controllers/noteControllers.js:20-22 | the whole array in insertion order, status 200 |
| NoteControllers.NoteBoard.GetNotesById | src/controllers/noteControllers.js:24-30 | the first note whose id is `Number(param)`, or 404 "Note not found" exactly when the parameter is not a number or no note has that id |
| NoteControllers.NoteBoard.UpdateNotes | src/controllers/noteControllers.js:32-42 | an absent id gives 404 and no change; otherwise only the found note changes, taking each truthy field given, and the answer is the updated note |
| NoteControllers.NoteBoard.DeleteNotes | src/controllers/noteControllers.js:44-54 | an absent id gives 404 and no change; otherwise exactly the found element is removed, the rest keep their order, no note keeps the id, the counter is untouched and the answer is 204 |
| NoteControllers.LookupDecimal | src/controllers/noteControllers.js:25-26 | the route `/notes/<id>` designates the note with that id |
| NoteControllers.NonNumericMatchesNothing | src/controllers/noteControllers.js:25-27 | a parameter that `Number()` cannot read designates no note |
| Js.NumberOf | src/controllers/noteControllers.js:25 | `Number(param)` over optional white space, an optional sign and decimal digits; properties in `NumberOfDecimal` and `NonNumericParam` |
| Js.Truthy | src/middleware/notemiddleware.js:4 | JavaScript truthiness: `undefined`, `null`, `false`, `0` and `""` are falsy; properties in `FalsyFieldsMissing`, `StatusDefault` and `MessageDefault` |
| Js.Prop | src/middleware/notemiddleware.js:2 | a property read: an object's field, and `undefined` for an absent field or a non-object; properties in `FalsyHasNoProps` |
| Js.LessThan | src/controllers/authController.js:16 | `v < n`: a `TypeError` when converting `v` throws, otherwise both sides as numbers, never true for `NaN`; properties in `ComparisonThrowsIff` and `TooShortOtherValues` |
| Js.ConversionThrows | src/controllers/authController.js:16 | converting a JSON value to a primitive throws exactly for an object with an own `toString` field, or an array with such an element at any depth; properties in `ComparisonThrowsIff` |
| Js.ComparisonThrowsIff | src/controllers/authController.js:16 | only an object or an array can make `<` throw: an object exactly when it has an own `toString` field, an array exactly when one of its elements throws |
| Js.LengthOf | src/controllers/authController.js:16 | `.length` of a string, an array, or an object's own `length` property; properties in `TooShortOtherValues` |
| Js.ToNumber | src/controllers/authController.js:16 | the number `<` compares a value as when its conversion does not throw, with `NaN` as none; properties in `TooShortOtherValues` |
| Js.NumberOfDecimal | src/controllers/noteControllers.js:25 | `Number()` of an id's decimal numeral is that id |
| Js.NonNumericParam | src/controllers/noteControllers.js:25 | a parameter with a character that is not a digit, a sign or white space is not a number in the modelled integer syntax |
| Js.FalsyHasNoProps | src/middleware/notemiddleware.js:2 | reading a field of a falsy value gives `undefined` |
| NoteMiddleware.ValidatesCreatedNotes | src/middleware/notemiddleware.js:1-8 | the create validator; properties in `CreateAcceptsIff`, `MissingBodyRejected`, `FalsyFieldsMissing` |
| NoteMiddleware.ValidatesUpdatedNotes | src/middleware/notemiddleware.js:10-17 | the update validator; properties in `UpdateAcceptsIff`, `MissingBodyRejected`, `CreateAcceptedImpliesUpdateAccepted` |
| NoteMiddleware.Title | src/middleware/notemiddleware.js:2 | the `title` of the body, where a falsy body reads as `{}`; properties in `MissingBodyRejected` |
| NoteMiddleware.Content | src/middleware/notemiddleware.js:11 | the `content` of the body, where a falsy body reads as `{}`; properties in `MissingBodyRejected` |
| NoteMiddleware.CreateAcceptsIff | src/middleware/notemiddleware.js:1-8 | the create validator passes exactly when title and content are both truthy, and otherwise answers 400 "Title and content are required" |
| NoteMiddleware.UpdateAcceptsIff | src/middleware/notemiddleware.js:10-17 | the update validator passes exactly when title or content is truthy, and otherwise answers 400 "Title or content are required" |
| NoteMiddleware.MissingBodyRejected | src/middleware/notemiddleware.js:2 | a missing body reads as `{}`, so both validators reject it |
| NoteMiddleware.CreateAcceptedImpliesUpdateAccepted | src/middleware/notemiddleware.js:4 | a body the create validator accepts, the update validator accepts too |
| NoteMiddleware.FalsyFieldsMissing | src/middleware/notemiddleware.js:4 | `undefined`, `null`, `false`, `0` and `""` all count as missing |
| ErrorHandling.ErrorHandler | src/middleware/errorHandler.js:1-11 | one response from the error's `statusCode` and `message`, each replaced by its default when falsy; properties in `StatusDefault`, `MessageDefault`, `StatusFieldIsError` |
| ErrorHandling.StatusDefault | src/middleware/errorHandler.js:4 | the status is the error's `statusCode` when truthy and 500 otherwise, so it is never falsy |
| ErrorHandling.MessageDefault | src/middleware/errorHandler.js:8 | the message is the error's `message` when truthy and "An unexpected error occurred" otherwise |
| ErrorHandling.StatusFieldIsError | src/middleware/errorHandler.js:7 | the body's `status` is always "error" |
| ErrorHandling.ZeroCodeAndEmptyMessage | src/middleware/errorHandler.js:4-8 | `statusCode: 0` and an empty message both fall back to their defaults |

The validators and the error handler return one value, of a type with exactly one alternative per outcome. So each of them either calls `next` or sends one response, and the error handler never calls `next`.

## Left out

- jsonwebtoken and bcrypt. They are foreign code and become the `Signer`, `Verifier`, `Hasher` and `Comparer` parameters.
- `SignVerifyAgree` is stated, not proved. It says a token signed at a given instant is a non-empty, space-free string that verifies back to its payload while it is valid. `IssuedTokenAccepted` and `RegisterLoginAuthenticate` require it for the instants they sign at.
- Expiry time. A verifier answers for the present instant, so an expired token is one the verifier reports as `TokenExpiredError`.
- The decoded claim's `iat` and `exp` fields. `req.user` holds only `{ userId, username }`.
- knex, SQLite and `initDb`. Only two things remain of the database: the auto-increment ids and the unique username.
- `AuthController.Register`, `AuthController.Login`, `AuthController.LoginSucceedsIff`: these give a truthy username that is not a string the 500 answer. The program passes such a value to the query (src/controllers/authController.js:22, 58), and SQLite's coercion of it is not modelled.
- SQLite's coercion of other non-string values:
  - `NoteTable` stores only strings. A `null` title (which violates its NOT NULL constraint) and a nullable `content` are not modelled.
- `NoteRepository.NoteTable.UpdateById`: `null` passed as a field is not modelled. `None` stands only for `undefined`.
- The order of rows with equal `createdAt`. SQLite does not promise one, and may order ties differently in separate `LIMIT`/`OFFSET` queries. `now()` has one-second resolution, so ties are common. The model keeps table order (`NoteRepository.SortDescStable`). `NoteRepository.PagesCoverListing` therefore assumes one fixed tie order across pages. Under SQLite, a note tied on `createdAt` with another can appear on two pages or on none.
- `NoteRepository.NoteTable.GetAll` requires `page >= 1` and `limit >= 1`. A zero, negative or non-integer page or limit goes to SQLite's `LIMIT`/`OFFSET` and to `Math.ceil` of a division by zero, and is not modelled.
- Express routing, `app.js`, `server.js` and the router. This includes what follows once `register`'s promise rejects, which `AuthController.Register` gives as `Err(TypeError)`.
- `ErrorHandling.ErrorHandler`: `res.status` and the response it starts. A code that is not a number, or a number outside 100 to 999 such as 42 or 1000, makes Express throw a `TypeError` or a `RangeError` (in `res.status` on Express 5, in `writeHead` on Express 4). The handler then sends no response of its own. The model answers `ErrorResponse` with that code. `src/middleware/asyncHandler.js` is not part of this model.
- `req.body` missing in the notes controllers. The handlers destructure it, which would throw; the validators in front of them reject such requests first.
- The clocks. The database's `now()`, `new Date().toISOString()` and `createdAt` defaults are parameters.
- `console.warn`, `console.error` and the reading of `JWT_SECRET` at module load.
- The race between `findByUsername` and `create` in `register`. A sequential model cannot express it; only the store invariant is kept.
- JavaScript numbers. They are integers here, with no fractions and no `NaN`.
- `Js.NumberOf`, `Js.NonNumericParam`, `NoteControllers.Lookup`, `NoteControllers.NoteBoard.GetNotesById`, `NoteControllers.NoteBoard.UpdateNotes`, `NoteControllers.NoteBoard.DeleteNotes`: `NumberOf` reads optional white space, an optional sign and decimal digits. `"1.0"`, `"1e0"`, `"0x1"`, `"Infinity"` and white space outside ASCII all give "not a number" here, though JavaScript reads the first three as 1. So `GET`, `PATCH` and `DELETE /notes/1.0` act on note 1 in the program but answer 404 in the model. The same applies when `Js.ToNumber` converts a string `length` in the password check.
- `Js.LengthOf`, `AuthController.TooShort`, `AuthController.StringTooShortIff`: `password.length` counts code points here, not UTF-16 units. A password with characters outside the Basic Multilingual Plane is therefore shorter than in JavaScript.

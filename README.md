# Bookmark REST API — a Dafny model of its core

The modelled service lets users register and log in, and keep a personal
list of bookmarks. Each bookmark gets a three-character short code. This
project models three parts of it and proves properties of each:

- **The short-code allocator** (`BookMark.generate_short_characters`). A code
  is three characters drawn from the 62 digits and ASCII letters. A code
  that collides with a saved one is redrawn. The random source is an oracle
  sequence of draws; the store is the set of saved codes. The module holds
  the method as written (`GenerateAsWritten`) and as evidently intended
  (`Generate`); see "Findings".
- **The bookmark table and its handlers** (`Bookmarks.BookmarkTable`). The
  handlers are create, list, get one, update, delete and statistics. Each
  is a method on a class whose `rows` field is the table, in insertion
  order. The current user's id is an input. Each state-changing method
  states its status code and the exact new table. These properties are
  proved:
  - the guard order;
  - ownership scoping;
  - "nothing else changes";
  - ids stay well formed;
  - short codes stay pairwise distinct.
- **Registration and login** (`Auth`). `RegisterCheck` is the ordered guard
  chain. `UserTable.Register` runs it, then inserts one user whose stored
  password is the hash of the given one. `UserTable.Login` accepts exactly
  when a user with that e-mail exists and the password check passes.

The library predicates `validators.url` and `validators.email`, and
werkzeug's `generate_password_hash` and `check_password_hash`, are
parameters of type `string -> bool`, `string -> string` or
`(string, string) -> bool`. Statuses are the `Common.Status` datatype.
`NoResponse` marks a create request whose outcome the model leaves open: the
allocator has found no free code when the model's draws run out.

Some behaviour one might expect of a URL shortener is absent from the code; the model follows the code:

- The code has no redirect path and never increments `visits`, so neither
  is modelled. `visits` is only defaulted to 0.
- The `short_url` column carries no uniqueness constraint. Only the
  allocator's check keeps codes distinct, which is why `DistinctCodes` is
  proved to be preserved rather than assumed.
- The allocator has no retry cap.
- On a collision, the allocator as written returns None rather than the
  retried code.

## Model

| member | source | states |
|---|---|---|
| `Common.FirstWhere` | src/booKMark.py:94 | `query.filter_by(...).first()`: the result is the first position whose row matches the filter, and None exactly when no row matches |
| `ShortCode.AlphabetIsDigitsAndLetters` | src/database.py:40 | the alphabet has 62 pairwise distinct characters, which are exactly the digits and the ASCII letters |
| `ShortCode.Candidate` | src/database.py:40-42 | every candidate code has length 3, and each character is the alphabet character at the drawn position |
| `ShortCode.CandidateCoversEveryCode` | src/database.py:40-42 | every well-formed three-character code is the candidate of some draw |
| `ShortCode.CandidateInjective` | src/database.py:40-42 | two draws give the same code only if they are the same draw |
| `ShortCode.GenerateAsWritten` | src/database.py:39-49 | as written, the method returns a code exactly when the first candidate is free, and that code is the first candidate; a None result implies the first candidate collided |
| `ShortCode.AsWrittenFinishes` | src/database.py:44-47 | as written, once some draw is free the recursion finishes |
| `ShortCode.AsWrittenCollisionReturnsNone` | src/database.py:46-47 | as written, a first candidate that collides makes the method return None, whatever the finished recursive call produced |
| `ShortCode.Generate` | src/database.py:39-49 | intended allocator: it never returns None; a returned code is well formed, is not among the saved codes and is some draw's candidate; it runs out only when every draw collides |
| `ShortCode.GenerateReturnsFirstFree` | src/database.py:44-49 | the intended allocator returns the candidate of the first draw that collides with no saved code, so a free first candidate is returned unchanged |
| `ShortCode.AsWrittenAgreesOnlyWithoutCollision` | src/database.py:44-49 | when some draw is free, the written and intended allocators agree exactly when the first candidate is free |
| `ShortCode.CollisionExample` | src/database.py:44-49 | with "ab1" saved and draws "ab1" then "xy2": as written the result is None, as intended it is "xy2" |
| `Bookmarks.Construct` | src/database.py:52-55 | the constructor stores url, body and owner, sets visits to 0, leaves the id unassigned, and overwrites any passed short code with the allocator's result, which is well formed and not among the saved codes |
| `Bookmarks.Owned` | src/booKMark.py:169 | the owner filter keeps only rows of the given user that are in the table |
| `Bookmarks.OwnedExactly` | src/booKMark.py:169 | a row is in the owner filter if and only if it is in the table and belongs to the user |
| `Bookmarks.OwnedCount` | src/booKMark.py:169-179 | the owner filter has one entry per row of the user |
| `Bookmarks.RemoveAt` | src/booKMark.py:158-159 | deleting one row keeps every other row in order, keeps ids well formed and codes distinct, and removes exactly the rows with that id |
| `Bookmarks.BookmarkTable.constructor` | src/database.py:28-37 | a new table is empty, well formed, and next assigns id 1 |
| `Bookmarks.BookmarkTable.Save` | src/database.py:58-60 | `save` appends exactly one row carrying the next id; no other row changes |
| `Bookmarks.BookmarkTable.Create` | src/booKMark.py:17-47 | an invalid URL gives 400 with the table unchanged; otherwise a URL stored by any user gives 409, unchanged; otherwise 201 appends exactly one row with the given url and body, visits 0, the caller as owner and a fresh code; code distinctness is preserved |
| `Bookmarks.BookmarkTable.List` | src/booKMark.py:56-70 | the listing holds exactly the rows of the current user, in table order |
| `Bookmarks.BookmarkTable.GetOne` | src/booKMark.py:90-109 | 404 unless some row has both the id and the current user as owner; otherwise 200 with that row |
| `Bookmarks.BookmarkTable.Update` | src/booKMark.py:115-144 | 404 for a missing or foreign id, whatever the URL; then 400 for an invalid URL; either way nothing changes; on 200 only url and body of that one row change |
| `Bookmarks.BookmarkTable.Delete` | src/booKMark.py:149-161 | 404 with nothing changed unless the current user owns the id; otherwise 204, and exactly that row is removed |
| `Bookmarks.BookmarkTable.Stats` | src/booKMark.py:165-181 | one entry (visits, url, id, short code) per row of the current user, in table order, and none for other users |
| `Auth.StatusOf` | src/auth.py:17-30 | the three form errors answer 400 and the two "already exists" errors answer 409 |
| `Auth.RegisterCheck` | src/auth.py:17-30 | the checks run in a fixed order: password shorter than 6, username shorter than 3, invalid e-mail, e-mail taken, username taken; the first failing check decides, and None means all passed |
| `Auth.UserTable.constructor` | src/database.py:9-17 | a new user table is empty and well formed |
| `Auth.UserTable.Save` | src/database.py:23-25 | `save` appends exactly one user carrying the next id; e-mails and user names stay unique |
| `Auth.UserTable.Register` | src/auth.py:12-49 | a refusal answers its status and adds no user; otherwise 201 adds exactly one user, whose stored password is the hash of the given password |
| `Auth.UserTable.Login` | src/auth.py:53-72 | 200 with that user if and only if a user with that e-mail exists and the password check accepts; otherwise 401 |

## Findings

| source | as written | input that shows it | evidently intended | confidence | as-written member | corrected member |
|---|---|---|---|---|---|---|
| src/database.py:46-47 | on a collision the method calls itself but drops the result, so it returns None | store holds "ab1"; the generator yields "ab1", then "xy2" | return the retried code, so the result is "xy2" | not executed; high (the recursive call has no `return`) | `ShortCode.AsWrittenCollisionReturnsNone` | `ShortCode.GenerateReturnsFirstFree` |

## Left out

- Bookmarks.BookmarkTable.Create: uses the corrected allocator. As written, a collision leaves `short_url` None. The NOT NULL column then makes the commit fail with a server error. That path is modelled only at the allocator level (`GenerateAsWritten`).
- Bookmarks.Construct: uses the corrected allocator, for the reason given for Create.
- ShortCode.Generate: the random source never runs out, but a finite oracle does. `OutOfDraws`, and `NoResponse` in Create, mark a run that found no free code within the supplied draws; the model says nothing about how the real request ends then.
- ShortCode.GenerateAsWritten and ShortCode.Generate: the interpreter's recursion limit is not modelled. Both the written and the corrected method add one stack frame per collision. After about a thousand consecutive collisions (CPython's default limit), the recursion would raise an error that the web framework answers with status 500. This needs nearly all 238,328 codes to be taken.
- Bookmarks.BookmarkTable.List: no pagination. It returns every page's items. The `page`/`per_page` slicing and the meta fields (src/booKMark.py:53-56, 72-80) are Flask-SQLAlchemy library behaviour.
- Query order: rows are returned in insertion order. The SQL queries have no ORDER BY.
- Token handling is not modelled: JWT issuance in login, the `@jwt_required` checks, `me` and `refresh_user_token` (src/auth.py:74-96). The current user id is an input, and login returns the user whose id would go into the tokens.
- Library predicates: `validators.url`, `validators.email`, `generate_password_hash` and `check_password_hash` are opaque parameters. Salting makes the real hash non-deterministic. The model takes the hash as a function of the password.
- Auth.UserTable.Save: the unique e-mail and username columns are modelled as a precondition. The integrity error the database would raise is not modelled. Register, the only caller, establishes the precondition.
- Request parsing: a missing JSON field makes `request.json[...]` fail. The model takes the fields as strings. An absent body in create and update is `None`.
- Timestamps (`create_at`, `updated_at`) are not modelled.
- The redirect and visit-count increment do not exist in the code, so they are not modelled.
- Concurrency is not modelled: two requests can race between the existence checks and the insert.
- The application factory and configuration (src/__init__.py) are not modelled.
- Bookmarks.BookmarkTable.Save and Auth.UserTable.Save: ids come from a counter that never goes back, as on a sequence-backed store. On a SQLite store, an integer primary key without AUTOINCREMENT takes the largest id plus one, so the id of a deleted last row is reused; the model does not capture that.
- Ids and visit counts are unbounded naturals. Column width limits are not modelled.

# Blog application: tables, session and handlers

A model of the Flask blog in `app.py`. Underneath the framework it is a small
state machine: a User table (unique username and email, a hashed password), a
Post table whose `user_id` points at a user, and one client's session that is
either empty or holds a `user_id` and a `username`. Each route handler is a
transition with a guard and an effect, and returns an outcome (a redirect to a
named page, a 404, or a rendered page with its data) in place of the template
and the flashed message.

Modules:

- `Wrappers` (wrappers.dfy): `Option`.
- `Passwords` (passwords.dfy): werkzeug's `generate_password_hash` and
  `check_password_hash` taken as two function parameters (`Hasher`). `Sound`
  says the check accepts the password a hash was made from. `Exact` says it
  accepts nothing else.
- `Models` (models.dfy): the `User` and `Post` rows, the key the store gives a
  new row, the schema's uniqueness and foreign-key constraints, and the
  row-level edits (delete by key, rewrite title and content by key) with their
  lemmas.
- `Queries` (queries.dfy): `.first()` on a filtered query, the newest-first
  ordering (`order_by(Post.date_created.desc())`), the filter by owner
  (`filter_by(user_id=...)`), and the lemmas that tie them together.
- `Routes` (routes.dfy): class `App`, whose fields are the two tables and the
  session and whose methods are the handlers. `Valid()` is the invariant every
  handler keeps:
  - keys, usernames and emails are unique;
  - every post's owner exists;
  - a non-empty session names an existing user;
  - every stored password is an output of the hasher.

  `FirstVisit` walks through the scenario of a first visit: alice registers,
  a duplicate username is refused, a wrong password is refused, the right one
  logs her in, and her post heads both listings.

Notes on how the model reads the code:

- A new row's key is one more than the largest key in its table, and 1 in an
  empty table. This is the rowid rule of an SQLite `INTEGER PRIMARY KEY` without
  `AUTOINCREMENT`. So after the newest post is deleted, the next post reuses its
  key; the model's keys are fresh with respect to the rows present, not to rows
  ever created.
- `order_by(date_created desc)` leaves the order of equal dates open. The model
  fixes it: of two posts with equal dates, the later-inserted one comes first.
  The claims that a new post heads the listings assume its date is strictly
  later than every stored date, so they do not rest on this choice.
- `date_created` is the `now` parameter of `CreatePost`, and the password salt
  is the `salt` parameter of `Register`.
- The code, not a wider reading of the design, is followed where they differ:
  - Registration does not reject an empty username, email or password.
  - Titles are not checked for emptiness either.
  - A non-owner's edit or delete is a redirect to the dashboard, not a distinct
    error.
  - A failed login leaves an existing session in place.

## Model

| member | source | states |
|---|---|---|
| `Models.NextId` | app.py:21-33 | the new key is positive, exceeds every key in the table, and is 1 or one more than an existing key (so it is the largest key plus one) |
| `Models.WithoutId` | app.py:170-171 | a row is in the table after deleting key `id` exactly when it was in it before and its key is not `id`; the table does not grow |
| `Models.WithoutIdCounts` | app.py:170-171 | deleting key `id` keeps every row with another key exactly as many times as the table held it, and no copy of a row keyed `id` |
| `Models.Rewritten` | app.py:148-150 | rewriting a post keeps every row's key, owner and creation date; rows with another key are unchanged; the row with that key gets the new title and content |
| `Models.RemoveAtIsWithoutId` | app.py:164-171 | with unique keys, removing the row found at position k is deleting the key of that row |
| `Models.RemoveAtKeepsUnique` | app.py:29 | removing one row keeps post keys unique |
| `Models.KeyedRowIsUnique` | app.py:29 | with unique keys, the row found for a key is the only row with that key |
| `Models.WithoutAbsent` | app.py:170-171 | deleting a key no row has leaves the table unchanged |
| `Models.InsertKeepsConstraints` | app.py:121-127 | a post keyed by the next key and owned by an existing user keeps keys unique and every post owned, and its key is new |
| `Models.DeleteUndoesInsert` | app.py:121-127 | inserting a post with a fresh key and then deleting that key gives back the original table |
| `Queries.First` | app.py:52-54 | `.first()` is None exactly when no row matches; otherwise it gives the position of the earliest matching row |
| `Queries.UserWithNameOrEmail` | app.py:52-54 | the registration lookup finds nothing exactly when no user has this username and no user has this email |
| `Queries.UserNamed` | app.py:78 | the login lookup finds nothing exactly when no user has this username; otherwise it finds a user with it |
| `Queries.PostWithId` | app.py:141 | `get_or_404` finds nothing exactly when no post has this key; otherwise it finds the post with it |
| `Queries.Insert` | app.py:40 | inserting into the ordering adds exactly that one row (multiset) |
| `Queries.InsertKeepsOrder` | app.py:40 | inserting into a newest-first sequence keeps it newest first |
| `Queries.NewestFirst` | app.py:40 | the index listing is a permutation of the table and is ordered by creation date, newest first |
| `Queries.NewestFirstSameRows` | app.py:40 | ordering adds and drops no row |
| `Queries.OwnedBy` | app.py:105 | a post is in the filtered listing exactly when it is in the table and its `user_id` is the given user; the listing is no longer than the table |
| `Queries.OwnedByCounts` | app.py:105 | the filter keeps each of the user's posts exactly as many times as the table holds it, and no other post |
| `Queries.OwnedByAppend` | app.py:105 | filtering a table with one more row adds that row at the end if the user owns it |
| `Queries.OwnedByInsert` | app.py:105-107 | filtering by owner commutes with inserting into a newest-first sequence |
| `Queries.OwnedByNewestFirst` | app.py:105-107 | the owner's posts sorted newest first are the full newest-first listing restricted to that owner, in the same order |
| `Queries.AppendedNewestHeads` | app.py:32 | a post dated strictly later than every stored post heads the newest-first listing once it is stored, whatever order equal dates take |
| `Queries.NewPostHeadsListings` | app.py:121-127 | a post dated strictly later than every stored post heads both the public listing and its owner's listing once it is stored |
| `Routes.App.constructor` | app.py:178-181 | a fresh database has empty tables and no session, and satisfies the invariant |
| `Routes.App.Index` | app.py:38-41 | the index renders every post, as a permutation of the table, newest first, with or without a session |
| `Routes.App.Dashboard` | app.py:99-108 | without a session, a redirect to login; with one, exactly the session user's posts, newest first, in the order of the index |
| `Routes.App.Register` | app.py:44-69 | a taken username or email gives a redirect to register with the user table unchanged; otherwise exactly one user is appended under a fresh key, the stored password is the hasher's output, and the check accepts the submitted password; uniqueness, and the invariant that every stored password is a hash output, are kept |
| `Routes.App.Login` | app.py:72-89 | a POST binds the session to that user's id and username exactly when a user with the username exists and the stored hash accepts the password; otherwise the session is unchanged. The password the user registered with always logs in. With a collision-free hasher, any other password is refused. The tables never change |
| `Routes.App.SameUsernameSameUser` | app.py:22 | under the invariant, two users with the same username are the same user |
| `Routes.App.Logout` | app.py:92-96 | the session is empty afterwards whatever it held, so a second logout changes nothing; the tables never change |
| `Routes.App.CreatePost` | app.py:111-132 | without a session, no change and a redirect to login; a POST appends one post owned by the session user under a fresh key; dated strictly later than every stored post, it heads the index and the dashboard |
| `Routes.App.EditPost` | app.py:135-155 | checks session, then existence (404), then ownership, and changes nothing when any check fails; the owner's POST rewrites only that post's title and content |
| `Routes.App.DeletePost` | app.py:158-174 | checks session, then existence (404), then ownership, and changes nothing when any check fails; the owner's request removes exactly that post and keeps every other in order |

## Left out

- Flask routing, request-form parsing, template rendering and `flash` messages are not modelled. Only the outcome of each request is kept. A missing form field (a 400 error in Flask) is not modelled.
- SQLAlchemy sessions, `commit`, SQLite persistence and `db.create_all` are modelled only as in-memory tables. The constructor stands for the empty database.
- werkzeug's hashing is foreign code. It is taken as the `Hasher` parameter. Its one-wayness and its salt format are not modelled.
- The random salt and the clock reading (`datetime.utcnow`) are not modelled. They become the `salt` and `now` parameters.
- The secret key and cookie signing are not modelled. The model has one client's session; sessions of other browsers are not modelled.
- Column length limits (`String(150)`, `String(200)`) are not modelled, and neither is the 64-bit range of integer keys. SQLite does not enforce the lengths.
- Concurrent requests are not modelled. The check-then-insert in registration is not atomic, and the database's unique constraint backs it.
- `scraper.py` is not part of this model. It fetches a page over the network, parses HTML and writes a CSV file.
- Whether a hash output can equal the submitted password is a property of werkzeug's hash, which is a parameter here. The model shows only that the stored value is the hasher's output.

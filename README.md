# Event subscription and chat gate, modelled in Dafny

This project models the core of a small Flask and Socket.IO application.
In that application people subscribe to an event with their email address and
receive a six-character access code. They confirm the address through a link
that carries the code. After that they may open the event's chat page and post
messages to the event's Socket.IO room. At start-up, before the server serves
requests, a one-off sync folds the rows of an events spreadsheet into the
event table, matching events by title.

The database and the rooms become one in-memory store, the class
`App.Store`. Its fields are:

- `events`, `subscribers` and `messages`: sequences, where the row with id
  `k` sits at position `k`;
- `members`: the `event_subscriber` association table, a set of
  (event id, subscriber id) pairs;
- `rooms`: a map from event id to the set of joined connection ids.

Every HTTP route and socket handler that changes state is a method of the
store, and each is one atomic update: `Subscribe`, `Confirm`, `OnJoin` and
`SendMessage`. The start-up sync, which is neither a route nor a socket
handler and runs before any of them, is the method `SyncEvents`. Each of
these five is specified by its exact result and new state, and keeps the
invariant `Valid()`. The gate of `chat`
changes nothing, so it is the function `Store.Chat`. `SyncRow` and
`UpsertEvent` are the two halves of one turn of the sync loop and are
specified by the fold they follow; `SyncEvents` restores the invariant after
the loop. The invariant covers:

- every subscriber has a valid email, a non-empty name and a code;
- access codes, emails and event titles are unique;
- memberships and messages refer to existing rows.

The pure parts are functions, with lemmas about them:

- the email recogniser;
- the code generator;
- the authorization query shared by `chat` and `handle_send_message`;
- `str.strip()`;
- the row parsing and the row fold of the sync.

Modules, one per file:

- `EmailAddress` (email.dfy): `is_valid_email`. A hand-written scanner is
  proved to accept exactly the strings the anchored regular expression
  matches. That includes the one trailing newline that Python's `re.match`
  lets `$` accept.
- `AccessCode` (access_code.dfy): `generate_access_code`. The six positions
  that `random.choices` draws are a parameter. `DrawsFor` shows that every
  six-symbol code over `[A-Z0-9]` can be drawn, so quantifying over the draws
  is the same as a nondeterministic choice of code.
- `Schema` (schema.dfy): the records of the persisted tables, the store
  invariant, and `.first()`, taken as "lowest matching id".
- `Authorization` (authorization.dfy): the three-part gate. The subscriber must
  be a member of the event, hold the same code and be confirmed. The gate's
  query with `.first()` is one function.
- `CatalogSync` (catalog.dfy): the row loop of `sync_events_with_csv`, as a
  fold over already-split rows.
- `App` (app.dfy): the outcomes of the handlers and the store.

Three behaviours of the code are kept as written, although a stricter design
would avoid them:

- `on_join` joins the room without any check, while every other chat action
  goes through the gate. `App.JoinedConnectionHearsRoom` shows the
  consequence: any connection that has joined a room receives the messages of
  authorized senders.
- A colliding access code is not retried. The unique constraint on
  `access_code` fails the request, which becomes the outcome
  `CodeCollision`, with no change of state.
- `confirm` ignores the event id of the link. It also succeeds again for a
  subscriber who has already confirmed.

## Model

| member | source | states |
|---|---|---|
| EmailAddress.ValidEmailIffPattern | app.py:60-62 | `is_valid_email` is the scanner `IsValidEmail`; it accepts a string exactly when it is, or after dropping one final newline is, a non-empty run of `[a-zA-Z0-9_.+-]`, then `@`, then a non-empty run of `[a-zA-Z0-9-]`, then `.`, then a non-empty run of `[a-zA-Z0-9.-]` |
| EmailAddress.PatternAccepted | app.py:60-62 | every string the pattern matches is accepted |
| EmailAddress.AcceptedMatchesPattern | app.py:60-62 | every accepted string matches the pattern |
| EmailAddress.ValidEmailHasOneAt | app.py:60-62 | an accepted address holds exactly one `@`, and that `@` is neither the first nor the last character |
| EmailAddress.ExampleAccepted | app.py:60-62 | `a@x.com` is accepted, and so is `a@x.com` followed by one newline |
| EmailAddress.TwoFinalNewlinesRefused | app.py:60-62 | `$` forgives one final newline but never two: any string ending in two newlines is refused |
| AccessCode.GenerateAccessCode | app.py:57-58 | every generated code has six characters, each an upper-case ASCII letter or a digit from the 36-symbol alphabet |
| AccessCode.DrawsFor | app.py:57-58 | every six-character `[A-Z0-9]` code is the result of some draw, so every such code can be generated |
| Schema.FirstWhere | app.py:127 | `.first()`, read as: the lowest id whose row matches, or nothing exactly when no row matches |
| Schema.SubscribersEvolveTransitive | app.py:43-48 | the allowed changes to the subscriber table compose: rows are kept, email, name and code never change, and `confirmed` never returns to false |
| Authorization.FindAuthorized | app.py:209-213 | the three-part filter is the predicate `Authorized`, shared with app.py:231-235; the gate query returns a subscriber that is a member of the event, holds the presented code and is confirmed, with no lower id doing so; it returns nothing exactly when nobody passes |
| Authorization.AuthorizedUnique | app.py:48 | because access codes are unique, at most one subscriber passes the gate for a given event and presented code |
| Authorization.FindAuthorizedExactly | app.py:48 | with unique codes, the query returns a subscriber exactly when that subscriber passes the gate |
| Authorization.MissingCodeRefused | app.py:229-235 | when every subscriber holds a code, a request with no code is refused |
| CatalogSync.TrimStartMeaning | app.py:78 | the result is a suffix of the input, everything removed is white space, and the result does not start with white space |
| CatalogSync.TrimEndMeaning | app.py:78 | the result is a prefix of the input, everything removed is white space, and the result does not end with white space |
| CatalogSync.StripMeaning | app.py:78-79 | `str.strip()` is the function `Strip`; it returns a slice of the input, only white space lies outside that slice, and the slice neither starts nor ends with white space |
| CatalogSync.ParseRow | app.py:74-76 | a row yields an event exactly when it has at least six fields |
| CatalogSync.ParseRowMeaning | app.py:78-79 | the title is field 1, stripped, or `No title` when nothing is left; the description is field 3, stripped, or `No description`; neither is empty and neither has white space at its ends |
| CatalogSync.UpsertMeaning | app.py:90-98 | the lookup by title (`TitleIndex`) and the update or insert are the function `Upsert`: a new title is appended as one new event; for a known title only the description of the first event with that title changes; no title is lost or renamed, and no title is duplicated |
| CatalogSync.UpsertIdempotent | app.py:90-98 | upserting the same event twice has the effect of upserting it once |
| CatalogSync.ApplyRowMeaning | app.py:74-98 | one loop turn is the function `ApplyRow`: a short row leaves the table unchanged; any row keeps every title and adds only new titles |
| CatalogSync.ApplyRowIdempotent | app.py:73-98 | applying the same row twice in a row has the effect of applying it once |
| CatalogSync.SyncRowsAppend | app.py:73 | syncing two batches of rows one after the other is the same as syncing their concatenation |
| CatalogSync.SyncRowsStep | app.py:73 | one turn of the loop applies the next row and then syncs the rest |
| CatalogSync.SyncKeepsTitles | app.py:73-98 | the loop is the left fold `SyncRows`; a sync removes no event and renames none, and every event it adds has a title no other event has |
| CatalogSync.SyncPreservesUniqueTitles | app.py:90-98 | a table whose titles are unique keeps them unique through a sync |
| CatalogSync.SyncCoversRows | app.py:73-98 | after a sync, every row with at least six fields is the title of some event |
| App.RequestError | app.py:118-125 | the first failed input check, in route order: a missing or invalid email, then a missing name, then a missing title or description; nothing is reported exactly when all the inputs are present and the email is valid |
| App.Store.constructor | app.py:31-55 | a fresh store is empty and satisfies the invariant |
| App.Store.Subscribe | app.py:111-145 | gives the outcome for every case: an input error, an unknown (title, description) pair, an already-existing membership, a colliding new code, or success. Any failure leaves the state unchanged. On success the membership relation gains exactly the new pair, which was absent before. An existing subscriber (matched by email) is reused with its name, code and `confirmed` unchanged. Only a new subscriber is appended, with the given email and name, `confirmed` false and the generated code. The invariant is kept |
| App.Store.Confirm | app.py:191-203 | `confirmed` becomes true exactly when the subscriber id exists and its stored code equals the presented one, whatever the event id; otherwise nothing changes; `confirmed` never becomes false |
| App.Store.Chat | app.py:205-216 | the chat page is shown only for an existing event and a subscriber who passes the gate with the query code, or else the cookie code (the function `PresentedCode`, app.py:207); access is refused exactly when the event is missing or nobody passes |
| App.Store.OnJoin | app.py:221-223 | the connection is added to the event's room whatever the request holds; nothing else changes |
| App.Store.SendMessage | app.py:225-245 | when the gate refuses, no message is stored and only the requesting connection gets `Accès refusé`; otherwise exactly one message (event, content, sender) is appended and the content is sent to the room's connections with the first letter of the sender's full name |
| App.Store.SyncRow | app.py:74-98 | one loop turn replaces the event table with the row applied to it and leaves every other table unchanged |
| App.Store.UpsertEvent | app.py:90-98 | the first event with the title gets the new description in place, or the event is appended when no event has the title; the other tables are unchanged |
| App.Store.SyncEvents | app.py:70-100 | the event table becomes the fold of the data rows over the old table, the other tables are unchanged, and the invariant is kept; an empty sheet changes nothing |
| App.NewSubscriberStaysConsistent | app.py:133-136 | a subscriber with an email and a code nobody has, a valid email, a name and a six-symbol code can be appended without breaking the store invariant |
| App.JoinStaysConsistent | app.py:138-141 | a membership between an existing event and an existing subscriber keeps the store invariant |
| App.MoreEventsStayConsistent | app.py:53 | adding events, with titles that stay unique, never breaks the references of memberships and messages |
| App.LookupEventExactly | app.py:127 | in a reachable store the event lookup of `subscribe`, the function `LookupEvent`, returns an id exactly when that event has the requested title and description, so the row order the database uses does not matter |
| App.LookupSubscriberExactly | app.py:133 | emails being unique, the subscriber lookup, the function `LookupSubscriber`, returns an id exactly when that subscriber has the email, so the row order does not matter |
| App.ChatAgreesWithSendGate | app.py:207-216 | under the invariant, the chat page opens exactly when the shared gate query finds a subscriber, so the event check of `chat` never refuses a request the gate accepts |
| App.JoinedConnectionHearsRoom | app.py:221-245 | a connection that joined without any check then receives every message an authorized sender posts to that room |

## Left out

- Flask routing, templates, redirects and cookies are left out as framework and interface code. This covers `index`, `render_template`, `make_response` and `set_cookie`. The cookie's value enters `Chat` as a parameter. The chat page's message list is not modelled.
- `send_confirmation_email` and the QR code are left out. They are SMTP, file I/O and an image library, and a successful `Subscribe` only stands for the point where the mail would be sent.
- The HTTP fetch of the sheet, the CSV splitting and the date parsing of field 5 are left out. Rows enter as already-split fields. The parsed date is never stored. An empty sheet, where `next` fails, changes nothing.
- SQLAlchemy sessions, commit, rollback and the handlers' exception logging are left out. Each handler is one atomic update. The sync assumes autoflush, so a later row sees the events added by earlier rows.
- Socket.IO transport, `request.sid` and disconnect cleanup are left out: the library manages them. A room is only a set of connection ids, and a connection id is a parameter.
- Concurrency between handlers is left out. Every handler runs alone.
- `random.choices` is modelled as the six alphabet positions it draws, taken as a parameter. Randomness itself is not modelled.
- models.py is not part of this model. It repeats the schema and is not imported by app.py.
- Requests whose JSON fields are not strings, and socket payloads without an `event_id` or `message` key, are not modelled. Fields are optional strings, and event ids are natural numbers.
- Column length limits and collation are not modelled. The database is named by `DATABASE_URL` (app.py:21), and the model assumes one that does not enforce `String(n)` lengths and compares strings exactly and case-sensitively. On a database that enforces the lengths, an email longer than 120 characters would make `subscribe` fail with a 500 when the new row is flushed (app.py:138), before the commit. A sheet title longer than 100 characters would make the sync raise when that row is flushed: at the next row's lookup (app.py:90), or at the commit (app.py:100) for the last row. The sync would then log the error and store nothing. On a database whose default collation ignores case, `filter_by(email=…)` (app.py:133), `filter_by(title=…)` (app.py:90, 127) and the unique email constraint would treat `A@x.com` and `a@x.com` as the same. There `subscribe` would reuse the existing subscriber, where the model creates a new one.
- Row order of queries is not modelled. The queries behind `.first()` (app.py:90, 127, 133, 209-213 and 231-235) have no `order_by`, so the database may return any matching row; the model always takes the lowest id. This choice makes no difference where the matched columns are unique: emails and access codes by the schema, and titles in every store the handlers reach, which is part of `Valid()` (`App.LookupEventExactly`, `App.LookupSubscriberExactly`, `Authorization.FindAuthorizedExactly`). A table that already held duplicate titles is outside `Valid()`; for it the model's upsert updates the one with the lowest id.

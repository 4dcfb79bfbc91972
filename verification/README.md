# Password-manager backend: account and vault state machine

This project models the request-handling core of a small credential-vault
backend written for Express and MongoDB. Users sign up with a username,
email and password, log in to receive a 24-hour JSON Web Token, and then use
that token to save, list and delete per-site credentials. The model treats
the documents of the `user` and `password` models as the state
`Store(accounts, entries, issued)`. In a valid store, `issued` bounds every entry `_id` ever given out. Each route handler is a pure transition that
returns an `Outcome(status, body, store)`.

Layout, one module per file:

- `common.dfy` (`Common`): `Option` and the `Id` type for document `_id`s.
- `header.dfy` (`Header`): JavaScript's `split(" ")`, its inverse `join(" ")`, and token extraction from the `authorization` header.
- `crypto.dfy` (`Crypto`): bcrypt's `hash`/`compare` and jsonwebtoken's `sign`/`verify` as function values in a `Primitives` record.
  - `Sound` lists what the routes rely on. A password matches its own hash, and a hash is never empty.
  - A signed token is one non-empty word. It verifies to its own claims before `exp` and is refused from `exp` on.
- `records.dfy` (`Records`): the `Account` and `Entry` documents and the store queries the routes issue.
  - The queries are `findOne({email})`, `find({userId})`, `findOne({_id, userId})` and `findByIdAndDelete`.
  - `Valid` is MongoDB's unique `_id` indexes plus the unique `email` index. It also requires every stored entry `_id` to lie below `issued`.
- `http.dfy` (`Http`): status codes, response bodies and `Outcome`.
- `auth.dfy` (`Auth`): `POST /signup` and `POST /login`.
- `manage.dfy` (`Manage`): the `verifyToken` gate and `POST /manage`, `GET /retrive` and `DELETE /manage/:id`.
- `service.dfy` (`Service`): all routes behind one `Handle`, runs of requests, isolation across runs, and an end-to-end scenario.

Parameters stand in for what the model does not compute:

- the library calls, as a `Primitives` value;
- the clock, as `now` in seconds;
- bcrypt's random salt, as a `Salt` argument.

A new account's `_id` is one more than the largest account `_id` (`NextId`); accounts are never deleted, so it is never reused. A new entry's `_id` is at least `issued` and above every stored entry `_id` (`NextEntryId`), and `issued` then moves past it. In a valid store it is exactly `issued`. So, like an ObjectId, an entry `_id` is never given out twice, even after its entry was deleted.

## Model

| member | source | states |
|---|---|---|
| Header.Split | routes/manage.js:8 | `split(" ")` yields at least one field and no field contains a space |
| Header.JoinSplit | routes/manage.js:8 | splitting the header loses nothing: joining the fields with single spaces gives the header back |
| Header.SplitJoin | routes/manage.js:8 | space-free fields are recovered exactly by splitting their join, so `Split` is the unique such decomposition |
| Header.BearerToken | routes/manage.js:8-9 | an absent header gives no token; a token that is given is non-empty and space-free |
| Header.BearerTokenOfFields | routes/manage.js:8-9 | for every header, the token is the second space-separated field if that field exists and is non-empty, and there is none otherwise |
| Header.SchemeIgnored | routes/manage.js:8 | any space-free first word, one space and a token yield that token; the scheme word is never checked |
| Header.BearerTokenExamples | routes/manage.js:8-9 | `Bearer abc` and `Basic abc` give `abc`; `abc`, `Bearer  abc` (two spaces) and the empty header give no token |
| Records.NextId | routes/auth.js:21-22 | the `_id` given to a new account is exactly one more than the largest account `_id` stored (0 for none), so it differs from all of them |
| Records.NextEntryId | routes/manage.js:25-32 | the `_id` given to a new entry differs from every stored entry `_id` and is at least `issued`. In a valid store, where every `_id` ever issued lies below `issued`, it is exactly `issued`, so no earlier `_id` is reissued, including that of a deleted entry. Manage.StaleDeleteNotFound and Manage.DeletedIdNeverReissued state the consequence |
| Records.AccountValid | models/user.js:4-6 | no contract of its own: `required: true` on `username`, `email` and `passwordHash`, via `Present`, the non-empty string test. Auth.Signup states its 500 branch |
| Records.EntryValid | models/password.js:4-7 | no contract of its own: `required: true` on `site`, `username` and `password`, via `Present`. Manage.Create states its 500 branch |
| Records.Valid | models/user.js:5 | no contract of its own. It combines the unique `email` index and the unique `_id` indexes, via `UniqueAccounts` and `UniqueEntryIds`, with every entry `_id` lying below `issued`. Service.HandleKeepsValid and Service.RunKeepsValid show that every request preserves it |
| Records.FindByEmail | routes/auth.js:15 | `findOne({email})` finds an account exactly when one has that email, and what it finds is a stored account with that email |
| Records.FindByEmailUnique | models/user.js:5 | with the unique email index, the lookup returns the one account holding the email |
| Records.OwnedBy | routes/manage.js:46 | `find({userId})` returns exactly the stored entries whose `userId` is the owner, and no others |
| Records.OwnedByCounts | routes/manage.js:46 | `find({userId})` returns each of the owner's entries exactly as many times as it is stored, and no entry of another owner |
| Records.OwnedByAppend | routes/manage.js:46 | the owner filter over two concatenated stores is the concatenation of the filters |
| Records.HasOwned | routes/manage.js:61 | `findOne({ _id: id, userId })` finds a document exactly when some stored entry has that `_id` and that owner. With unique `_id`s, this test agrees with `findByIdAndDelete(id)` at line 67: the first entry with that `_id` exists and belongs to the owner |
| Records.RemoveAt | routes/manage.js:67 | removing the entry at one position leaves one entry fewer, with the entries before it in place and the entries after it moved up by one |
| Records.IndexOfId | routes/manage.js:67 | `findByIdAndDelete` targets the first entry with the `_id`, and finds none exactly when no entry has it |
| Records.RemoveOthers | routes/manage.js:67 | removing an entry of another owner leaves an owner's listing unchanged |
| Records.RemoveKeepsUnique | routes/manage.js:67 | removing one entry keeps `_id`s unique, drops exactly one entry and its `_id`, and keeps every other entry |
| Auth.Signup | routes/auth.js:12-27 | a duplicate email gives 400 with the store unchanged, including the existing account's hash. With a fresh email and username, email and hash all present, signup answers 200 and appends exactly one account: the given username and email, `passwordHash = hash(password, salt)` and a fresh `_id`. Entries are untouched. A missing required field gives 500 with the store unchanged |
| Auth.SignupKeepsValid | routes/auth.js:15-22 | signup keeps account `_id`s and emails unique |
| Auth.Login | routes/auth.js:29-61 | login never changes the store. An unregistered email gives 400. A failed password gives 401 and no token. Success means some registered account with that email matched the password, and the body carries a token signed over that account's `_id`, username and email, issued now and expiring 24 hours later, with `userid` and `username` of that account |
| Auth.TokenClaims | routes/auth.js:41-48 | no contract of its own: the payload `{_id, username, email}` with `iat = now` and `exp = iat + 24h`. Auth.LoginDecided states its content, with the literal 86400 |
| Auth.LoginDecided | routes/auth.js:33-57 | with unique emails, login against a registered account succeeds exactly when `compare` accepts the password, otherwise 401. On success the token covers exactly that account's claims with `exp = now + 86400`. |
| Auth.SignupThenLogin | routes/auth.js:20-41 | given that bcrypt accepts a password against its own hash, a successful signup is followed by a successful login with the same email and password, for the account just created |
| Manage.Authenticate | routes/manage.js:7-18 | no extracted token means 401; a token that fails verification means 403; otherwise the caller is exactly the decoded claims |
| Manage.IssuedTokenGate | routes/manage.js:11-17 | a token signed over some claims, behind any scheme word, admits exactly those claims before their `exp` and is refused with 403 from then on |
| Manage.Deny | routes/manage.js:9-16 | no contract of its own: the 401 `Unauthorized` and 403 `Invalid token` replies. Manage.GateGuardsRoutes states them for every route |
| Manage.CreateRoute | routes/manage.js:20 | no contract of its own: POST /manage behind `verifyToken`. Manage.GateGuardsRoutes states its 401/403/handler split |
| Manage.ListRoute | routes/manage.js:42 | no contract of its own: GET /retrive behind `verifyToken`. Manage.GateGuardsRoutes states its 401/403/handler split |
| Manage.DeleteRoute | routes/manage.js:55 | no contract of its own: DELETE /manage/:id behind `verifyToken`. Manage.GateGuardsRoutes states its 401/403/handler split |
| Manage.GateGuardsRoutes | routes/manage.js:9-17 | without a token all three vault routes answer 401, and with a token that fails verification they answer 403. In both cases the handler never runs and the store is unchanged. Otherwise each route runs its handler as the decoded claims |
| Manage.Create | routes/manage.js:20-39 | with site, username and password all present, create appends exactly one entry. Its `userId` is the caller's `_id`, its fields come from the body, and its `_id` is fresh: it differs from every stored `_id` and is at least the `issued` bound, which moves past it. No existing entry changes. Otherwise save fails with 500 and the store is unchanged |
| Manage.List | routes/manage.js:42-52 | listing answers 200 without changing the store. An entry is listed exactly when it is stored with the caller's `_id` as `userId`, and each such entry appears exactly as often as it is stored |
| Manage.Delete | routes/manage.js:55-73 | an `:id` that is not an ObjectId gives 500. When no entry has both that `_id` and the caller as owner, the answer is 404 and nothing changes; this covers another owner's entry. Otherwise the answer is 200 and exactly the first entry with that `_id` is removed, with the other entries kept in order |
| Manage.DeletedIndex | routes/manage.js:61-67 | with unique `_id`s, the entry a successful delete removes is the caller's own entry with that `_id` |
| Manage.DeleteOwnedOnly | routes/manage.js:61-68 | with unique `_id`s, a successful delete drops exactly one entry, which is the caller's. The `_id` is gone, every other entry remains, `_id`s stay unique, and no other owner's listing changes |
| Manage.CreateThenDelete | routes/manage.js:20-73 | deleting the entry just created answers 200 and restores both collections as they were before the create; only the `issued` bound stays advanced |
| Manage.StaleDeleteNotFound | routes/manage.js:61-64 | after an entry is created and deleted, a later create never gets its `_id`, so repeating the delete answers 404 |
| Manage.DeletedIdNeverReissued | routes/manage.js:61-67 | in a valid store, after the caller deletes an entry they own, a later create never gets its `_id`, so repeating the delete answers 404 |
| Manage.CreateThenList | routes/manage.js:25-48 | after a create, the caller's listing gains the new entry at its end and every other owner's listing is unchanged |
| Service.HandleKeepsValid | routes/manage.js:20-73 | every request keeps entry `_id`s, account `_id`s and emails unique, and keeps every stored entry `_id` below `issued` |
| Service.HandleIsolation | routes/manage.js:44-67 | a request changes the listing of no owner other than the `_id` in its verified token |
| Service.HandleScope | routes/manage.js:44-67 | every entry a request lists, saves or removes belongs to the `_id` in its verified token. Requests without a verified caller leave the entries untouched |
| Service.RunKeepsValid | routes/auth.js:15-22 | `Valid` holds after any sequence of requests: unique `_id`s and emails, and entry `_id`s below `issued` |
| Service.RunIsolation | routes/manage.js:44-67 | over any sequence of requests, an owner's entries change only through requests whose verified token carries that owner's `_id` |
| Service.Handle | routes/manage.js:20-73 | no contract of its own: dispatches each request to its route. Service.HandleKeepsValid, Service.HandleIsolation and Service.HandleScope state what every request does |
| Service.RunKeepsIssued | routes/manage.js:25-32 | over any run of requests the `issued` bound never decreases, so an entry `_id` once given out is never given out again |
| Service.RunKeepsAccounts | routes/auth.js:12-61 | no sequence of requests removes or alters an account; accounts are only appended |
| Service.AliceScenario | routes/manage.js:20-73 | alice's walk-through under sound libraries: she signs up, logs in and saves a credential with the token. The credential is listed for her, and deleting it by its own `_id` returns 200. Afterwards her listing is empty, her account is unchanged, no entry remains, and repeating the delete answers 404 |

## Left out

- server.js: the CORS allow-list, the database connection and the listening port are process and network plumbing.
- bcrypt internals: the cost factor 10, salt generation and timing behaviour. `hash` is a function of password and salt, and `compare` is opaque apart from `HashSound`.
- jsonwebtoken internals: HMAC signing, encoding and the secret. `verify` is an oracle over token and clock, constrained only by `TokenSound`. An undefined `JWT_SECRET` (routes/auth.js:10) is environment configuration and is not modelled.
- 500 responses from store or library exceptions are modelled as `Failure` with the store unchanged for two causes only: a required string that is missing, and an `:id` that is not an ObjectId. Connection failures and other thrown errors are not modelled.
- Concurrency: handlers are sequential transitions. Delete is two store calls, a `findOne` filtered by `_id` and owner and then a `findByIdAndDelete` by `_id` alone (routes/manage.js:61-67). The window between them, and a concurrent duplicate signup, are not modelled, because those depend on the asynchronous runtime.
- Request bodies are strings. A missing body field is represented as the empty string. So `bcrypt.hash` on an undefined password, which throws, is modelled as hashing `""`.
- Auth.Login: a request without a `password` makes `bcrypt.compare` throw, and the route answers 500 (routes/auth.js:39, 58-59). The model compares `""` instead, so it answers 401, or 200 with a token when the account was registered with the empty password.
- Non-string JSON bodies, such as an object in place of the email that MongoDB would read as a query operator, are not modelled.
- A verified token whose payload lacks `_id` is not modelled: the claims always carry an `_id`, as every token the login route signs does.
- Mongoose's `__v` version key and the `ObjectId` format of `_id` are not modelled. `_id`s are naturals, and `issued` plays the part of ObjectId uniqueness over time.
- Manage.List: states which entries are listed and how often, not their order. The order of `find` is MongoDB's natural order; Records.OwnedByAppend and Manage.CreateThenList give the order for the model's insertion-ordered store.

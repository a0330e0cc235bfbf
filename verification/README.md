# shortURLS: a verified model of the server's tables and handlers

shortURLS is an Express server for shortening links. Users log in with an email and password (passport's `local` strategy) or with Google. They submit long links and get short codes. A short code redirects only while its owner is logged in.

All of the server's state lives in two Postgres tables:

- `users (id, email, password)`
- `urls (user_id, short_key, original_url)`

This model holds both tables in one object, `App.Server`. The server's behaviour is a small state machine over that object, and each route handler and strategy callback is modelled as a method or function that reads and writes the tables the way its SQL does.

Layout:

- `wrappers.dfy` – `Option`.
- `store.dfy` – the row types and the query shapes. `Where` models `SELECT … WHERE` (the matching rows, in table order). `First` models `result.rows[0]` with its `rows.length > 0` test. The module also holds the table invariant `Consistent`, which the handlers keep:
  - no two users share an id or an email;
  - every `urls` row belongs to an existing user;
  - a user has at most one row per link.
- `http.dfy` – what a handler answers: a redirect, `res.send`, a rendered template, Express's error handler, or a handler that itself sends nothing.
- `auth.dfy` – passport-local's missing-credentials test and the `local` verify callback, `serializeUser`/`deserializeUser`, the authentication test done on each request (`req.user`, `req.isAuthenticated()`), and what `passport.authenticate` does with a verify callback's result.
- `routes.dfy` – the read-only handlers `GET /dashboard`, `GET /submit` and `GET /:code`, and the join query that `POST /submit` uses to find duplicates.
- `app.dfy` – the class `Server` (fields `users`, `urls`, `nextId`), with `POST /register`, `POST /login`, the `google` verify callback, `POST /submit` and `POST /delete` as methods.
- `scenarios.dfy` – client methods that chain several requests and state what a client observes across them.

External pieces are parameters:

- `bcrypt.hash` is `bcryptHash: string -> Option<string>`; `None` stands for the error passed to its callback.
- `bcrypt.compare` is `compare: (string, string) -> Verdict`.
- `shortid.generate()` is the code passed to `Submit`.
- The id column of `users` is assumed to be a serial column, generated by the database; it is the counter `nextId`, which starts at 1. `index.js` holds no schema, so this is an assumption.
- The session is `Option<nat>`: the stored user id, or nothing.

Some behaviour follows the code where it departs from what the code evidently intends (an account's links reached only by its owner, a Google login that logs in on the first attempt):

- `POST /register` redirects to `/dashboard` without logging the user in, so the session does not change.
- `POST /delete` checks neither ownership nor authentication.
- `POST /submit` never checks authentication. Without a session user, `req.user.email` throws before any query runs.
- `POST /submit` looks for duplicates by joining on the email but inserts the new row under `req.user.id`.
- The first Google login for a new email inserts a row but fails to log in, because the `INSERT` has no `RETURNING` clause and the callback receives `undefined`. The next attempt finds the row and succeeds.
- One row per email is assumed not to be enforced by the schema (none is part of this model): the find-then-insert handlers keep it, given that each handler runs atomically.
- `POST /login` with an empty username or password never reaches the verify callback: passport-local fails it with "Missing credentials" and the user is sent back to `/login`. `POST /register` accepts an empty password, so such an account cannot log in locally.

## Model

| member | source | states |
|---|---|---|
| `Store.Where` | index.js:44-47 | A `WHERE` query returns every matching row, as many times as it appears, and no other row. |
| `Store.First` | index.js:178-182 | `rows[0]` is absent exactly when no row matches; when present, it is a matching row of the table. |
| `Store.AtMostOneRowPerLink` | index.js:100-112 | Under the table invariant, an owner has at most one `urls` row for a given link. |
| `Store.AppendNewLink` | index.js:104-111 | Appending a row for an (owner, link) pair that has no row keeps the invariant, and the new row is that pair's only row. |
| `Auth.LocalVerify` | index.js:176-198 | The `local` strategy yields a user only when that row carries the submitted email and bcrypt accepts the password against its hash. An unknown email yields `false`. An error comes only from bcrypt failing on a row with that email. |
| `Auth.LocalVerifyOfRow` | index.js:181-195 | With one row per email, the row with the submitted email decides the outcome: a match yields that row, a mismatch yields `false`, a bcrypt error yields the error. |
| `Auth.LoginAfterRegister` | index.js:176-198 | About the verify callback (reached only with non-empty credentials): after a fresh email is registered with hash `h`, the callback for that email yields the new row exactly when bcrypt matches the password against `h`, `false` on a mismatch and the error on a bcrypt error. |
| `Auth.LocalStrategy` | index.js:174-176 | passport-local's `Strategy`: an empty username or password fails (a falsy user) before any lookup; otherwise the verify callback's answer is the strategy's answer. |
| `Auth.Serialize` | index.js:205-207 | The session stores the user's id. |
| `Auth.Deserialize` | index.js:209-216 | Deserialization returns a row with the session's id when one exists in the current table, and `false` exactly when none does. |
| `Auth.SessionRoundTrip` | index.js:205-216 | Serializing a row of the table (only its id) and deserializing gives back that same row. |
| `Auth.CurrentUser` | index.js:209-216 | A request is authenticated exactly when its session holds an id that has a row in the current `users` table; `req.user` is that row. |
| `Auth.Authenticate` | index.js:141-147 | `passport.authenticate` redirects to `/dashboard` exactly when the verify callback yielded a user, and the session then holds that user's id. A falsy user gets a redirect to `/login` and an error goes to Express's error handler, both with the session unchanged. |
| `Auth.LoginEstablishesSession` | index.js:205-207 | After a successful login, later requests resolve to the logged-in row. |
| `Routes.Dashboard` | index.js:41-52 | Without a session user, the dashboard redirects to `/login`. Otherwise it renders exactly the rows whose `user_id` is the session id, each as often as it appears in the table. |
| `Routes.SubmitForm` | index.js:66-72 | The submit form is rendered exactly when the request is authenticated; otherwise the answer is a redirect to `/login`. |
| `Routes.Resolve` | index.js:156-173 | Without a session user, the answer is a redirect to `/login` before any lookup. Otherwise it redirects to the link of a row owned by the session user with that code, and answers 404 exactly when no such row exists. |
| `Routes.CodeRouteExamples` | index.js:41-156 | About `Routes.ReachesCodeRoute`, which models Express's route order: `GET /:code` is registered after the one-segment `GET` routes `/dashboard`, `/register`, `/login`, `/submit` and `/logout`, which match ignoring case. So `register`, `Dashboard` and the empty path never reach it, while an ordinary generated code does. |
| `Routes.ResolveSeesOnlyOwnRows` | index.js:161-164 | Other owners' rows never change the answer of `GET /:code`, even when they hold the same short code. |
| `Routes.SubmitJoin` | index.js:100-103 | The duplicate query returns exactly the `urls` rows with that link whose `user_id` belongs to a user with that email. |
| `Routes.JoinFindsOwnRows` | index.js:100-103 | With one row per email, the join on the session user's email finds exactly that user's rows for the link. |
| `App.Server.InsertUser` | index.js:129-132 | Inserting a user appends one row under the next serial id. `urls` stays unchanged and the invariant is kept. |
| `App.Server.Register` | index.js:115-140 | An email that is already registered gets "already registered" and nothing changes. A fresh email gets one new row (email, bcrypt hash of the password) and a redirect to `/dashboard`. A hashing error gets no answer and changes nothing. `urls` never changes. |
| `App.Server.Login` | index.js:141-147 | `POST /login` writes nothing. An empty username or password gets a redirect to `/login`. Otherwise it redirects to `/dashboard` exactly when a row with that email exists and bcrypt accepts the password against its hash, and the session then holds that row's id; it answers with Express's error handler exactly when bcrypt fails on that row; every other case goes back to `/login`. Only a successful login changes the session. |
| `App.Server.GoogleVerify` | index.js:229-242 | A known email yields its existing row and inserts nothing. An unseen email inserts exactly one row (email, profile id) and yields a falsy user. |
| `App.Server.Submit` | index.js:95-114 | Without a session user, nothing is written and the handler sends nothing itself (the exception is left to Express). Otherwise an existing row of this user for the link is reused with no insert, or one row (user id, new code, link) is appended. Either way the user then owns exactly one row for the link, and `users` is unchanged. |
| `App.Server.InsertUrl` | index.js:108-111 | Inserting a new (user, code, link) row appends it. The owner then has exactly one row for that link. |
| `App.Server.Delete` | index.js:89-93 | Every row with the given short code is removed, whoever owns it and whether or not anyone is logged in. All other rows keep their multiplicity, and `users` is unchanged. |
| `Scenarios.RegisterTwice` | index.js:119-133 | A second registration of the same email answers "already registered" whatever its password, and adds no row. |
| `Scenarios.RegisterSubmitResolve` | index.js:156-169 | For a non-empty email and password, and a code that reaches the `/:code` handler (not empty and not, ignoring case, `dashboard`, `register`, `login`, `submit` or `logout`, whose routes are registered first): after register, login and submit, the code redirects to the link. Without a session, the same code redirects to `/login` rather than answering 404. |
| `Scenarios.RegisterEmptyPassword` | index.js:115-147 | Registration with an empty password stores a row and redirects to `/dashboard`, but a login with an empty password goes back to `/login` with the session unchanged, so only a non-empty attempt can ever log in. |
| `Scenarios.SubmitTwice` | index.js:100-112 | Submitting the same link twice leaves exactly one row for it; the second submit writes nothing. |
| `Scenarios.SameLinkTwoUsers` | index.js:100-111 | Two users who shorten the same link each own exactly one row for it. |
| `Scenarios.GoogleTwice` | index.js:231-237 | A first Google login for a new email stores the row and redirects to `/login`. A second one logs in as that row. |
| `Scenarios.GoogleMergesLocal` | index.js:231-238 | A Google login whose email belongs to a local account logs in as that account and adds no row. |
| `Scenarios.DeleteAnotherUsersRow` | index.js:89-93 | Deleting by another user's code removes that user's row, and it vanishes from their dashboard. |

## Left out

- Express setup, middleware, static files and the pages that only render a template (`GET /`, `GET /register`, `GET /login`). They are transport and UI glue.
- The `.env` configuration and the `pg.Client` connection. The tables are in-memory state, and a failing query is not modelled. This also covers the `try`/`catch` paths that only log, and `deserializeUser`'s `cb(err)`.
- bcrypt's internals, `saltRound` and any cryptographic property. Hashing and comparison are parameters.
- The randomness of `shortid.generate()`. Codes are inputs, and nothing makes them unique, just as in the code.
- The OAuth exchange with Google and the endpoint configuration. Only the verify callback's use of the profile's `id` and `email` is modelled.
- `GET /logout` and the cookie mechanics of express-session. Logging out is modelled as a request whose session is `None`.
- Concurrent requests. Each handler runs atomically, so the read-then-insert race in register, Google login and submit is not modelled.
- Row order: `SELECT` without `ORDER BY` has no fixed order, and `rows[0]` is modelled as the first matching row in insertion order.
- The join in `POST /submit` is modelled by its `urls` columns, one per matching `urls` row. With unique ids, this is one joined row per such `urls` row.
- The 32-bit limit a serial id column would have is not modelled: ids are unbounded.
- Routes.Resolve: models the `/:code` handler only, not Express's routing. A code never reaches it when an earlier route or middleware matches first: the one-segment `GET` routes (matched ignoring case; the model folds ASCII letters only), a file of the same name under `public/` served by `express.static`, or the empty code, which is `GET /`. Only `Scenarios.RegisterSubmitResolve` states this restriction; other case-folding rules and percent-encoding of the path are not modelled.
- Request fields (`req.body.username`, `req.body.password`, `req.body.url`, `req.body.id`) are modelled as strings that are always present. A missing field is `undefined`, which node-postgres sends as SQL `NULL`, and a `NULL` never matches `email=$1`, `original_url=$2` or `short_key=$1`. The model does not cover missing fields, nor the array or object values that `bodyParser.urlencoded({ extended: true })` can produce. For such a request:
  - `POST /submit` finds no duplicate and inserts a row each time, if the column accepts `NULL`, so `Scenarios.SubmitTwice` and the one-row-per-link invariant `Store.OneRowPerLink` do not hold for it.
  - `POST /register` finds no row and inserts one each time, so `Scenarios.RegisterTwice` does not hold for it, nor does one row per email.
  - `POST /delete` deletes nothing.
  - If the column is `NOT NULL`, the insert fails instead, which is the failing-query case above.
- App.Server.Submit: an unauthenticated request is modelled as `NoReply` with the state unchanged. The thrown `TypeError` becomes a rejected promise. What follows depends on the Express and Node versions, which are not part of this model: Express 5 answers 500, while Express 4 leaves the rejection unhandled, and a recent Node may then end the process. The model carries on serving.
- passport-local's own handling beyond the empty-field test (option names, `passReqToCallback`, the failure message), and flash messages.

# Login resolution of the VIP cinema account service

This project models the `/api/login` handler of the service. The handler takes
an account (a username or an email) and a password hash. It looks the user up
in the `users` table and answers in one of two ways:

- 401 with the single message "账号或密码错误" ("wrong account or password");
- a user object built from the first matching row, with the VIP flag
  recomputed against the clock.

The database is an input: a sequence of rows, in the order the database
server returns them for the query. The account and the password are fields
of the JSON request body, each either missing (or `null`) or a string. The
clock is an integer `now`. The handler becomes a pure function, `Login.Login`, over these
inputs. Lemmas state what the handler guarantees:

- failure happens exactly when no row matches, and every failure is the same;
- a request without an account or without a password fails like wrong
  credentials;
- the first matching row returned by the server wins;
- expiry can only clear the VIP flag, and only strictly after the deadline;
- the reported fields are copied through, and the password hash and email
  never reach the answer.

Files:

- `wrappers.dfy`: the `Option` datatype.
- `users.dfy` (module `Users`): a row of `users` and its column values. A
  value is `Null`, a number or a string, so that the handler's `&&` and `||`
  follow JavaScript truthiness (`null`, `0` and `""` are falsy). The
  `vip_expire_time` column is `Unset` (NULL), `Blank` (empty string), `At(t)`
  (an instant the `Date` constructor reads as `t`) or `Unparseable` (a
  non-empty value that gives an invalid date, which is truthy and compares
  false with everything).
- `login.dfy` (module `Login`): the WHERE clause, the query as a filter, a
  reference scan for the first match, the effective VIP flag, the user object
  and the handler, with the lemmas about them.

Three facts about this revision of the handler that the model keeps:

- There is no privileged-account override and no `"user"` default for an
  empty role: the stored `role` is returned as it is (index.js:31).
- The flag is cleared only when `now` is strictly after the deadline, so the
  user is still active at the deadline itself (index.js:21).
- The reported flag is the stored value or the number `0`, not a boolean
  (index.js:19-21).

## Model

| member | source | states |
|---|---|---|
| `Login.Select` | index.js:10-13 | the query returns exactly the stored rows whose username or email equals the account and whose password hash equals the submitted one, and no more rows than the table holds |
| `Login.SelectAppend` | index.js:10-13 | the query over a table split in two is the query over the first part followed by the query over the second, so the server's row order is kept |
| `Login.FirstMatch` | index.js:15-16 | the first row, in the order the server returns them, satisfying the WHERE clause: it matches and every earlier row does not; there is none exactly when no row matches |
| `Login.SelectHeadIsFirstMatch` | index.js:10-16 | the query's result is empty exactly when no row matches, and its head (`users[0]`) is the first matching row in the server's order |
| `Login.EffectiveActive` | index.js:19-22 | the reported flag is truthy exactly when the stored flag is truthy and no known deadline lies strictly before `now`; it is either the stored value or `0`, the stored value whenever the deadline has not passed, and the stored value whenever the stored flag is falsy |
| `Login.View` | index.js:28-34 | `id` is `user_id` when that is truthy and `id` otherwise; `username`, `role` and `vip_expire_time` are copied unchanged; `is_active` is the effective flag (the stored value, or `0` when a truthy flag is past its deadline), truthy exactly when the stored flag is and the deadline has not passed |
| `Login.Login` | index.js:10-38 | the answer is the 401 "wrong account or password" failure exactly when no row matches, and otherwise the user object of the first matching row |
| `Login.LaterRowsIrrelevant` | index.js:15-16 | once a matching row is returned, rows returned after it do not change the answer |
| `Login.EarlierMismatchesIrrelevant` | index.js:10-16 | non-matching rows returned before the others do not change the answer |
| `Login.MissingFieldRejected` | index.js:5-13 | a request whose `account` or `password` is missing or `null` is bound as SQL NULL, matches no row and gets the same 401 answer as wrong credentials |
| `Login.FailuresIndistinguishable` | index.js:36-38 | any two credential pairs that match no row, an unknown account or a wrong password, get the identical 401 answer at any time |
| `Login.ExpiredVipReportedInactive` | index.js:19-21 | if the selected row's stored flag is truthy and its deadline is strictly before `now`, the reported `is_active` is `0` |
| `Login.NoExpiryKeepsStoredFlag` | index.js:19-20 | if the selected row's deadline is NULL or empty, the reported `is_active` is the stored one, whatever the time |
| `Login.ExpiryBoundaryIsStrict` | index.js:21 | at the deadline itself the stored flag stands; one millisecond later a truthy flag is cleared |
| `Login.ExpiryIsPermanent` | index.js:19-21 | a flag reported cleared at some time stays cleared at every later time |
| `Login.ViewIgnoresCredentials` | index.js:28-34 | rows that differ only in password hash and email give the same user object, so neither reaches the answer |

## Left out

- `api/mysql.js` as a whole: it passes SQL through to the database and sets CORS headers and logs, with no logic of its own.
- Opening and closing the database connection (index.js:8, index.js:42). The query's result is an input sequence, not a call into the MySQL driver.
- The 500 answer for exceptions (index.js:39-40), which wraps storage failures.
- Request fields that are neither strings nor missing/`null`. A number is compared by MySQL as a number (so `password: 0` equals every hash that MySQL reads as the number 0, such as one that starts with a letter), a boolean likewise, and an object or array is expanded by the driver into other SQL. These change the WHERE clause, so the model's statements about matching hold for string and missing fields only.
- The row order: the query has no ORDER BY (index.js:11), so the server may return matching rows in any order. The model fixes that order to the input sequence's; "first" means first in the sequence the server returned.
- Express routing and the `res.json`/`res.status` plumbing: the answer is the `Response` datatype.
- The wall clock and `Date` parsing: `now` and the deadline are integers, and the outcome of parsing a stored expiry is part of the `Expiry` value. The answer's `vip_expire_time` (index.js:33) is that parsed value, not the raw column value: two different unparseable strings are both `Unparseable`, and a date object and a string for the same instant are both `At(t)`.
- MySQL collation in the WHERE clause: the model compares strings exactly, without the default case-insensitive collation and trailing-space padding, and without MySQL's conversion between numeric and string columns.
- JSON serialisation: a column the table lacks (`undefined`, dropped from the JSON) and SQL NULL (written as `null`) are both `Null`. Numbers are integers, so `NaN` is not modelled.
- Activation-code redemption, admin checks and a hardcoded admin override are not part of this handler and are not modelled.

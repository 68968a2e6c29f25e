/**
  The `/api/login` handler as a function of the `users` table (a sequence of
  rows in the order the database server returns them), the submitted
  credentials and the current time.
  The handler selects the rows whose username or email is the account and
  whose password hash is the submitted one, answers 401 when none is left,
  and otherwise reports the first of them with its VIP flag recomputed
  against the clock.
 */
module Login {
  import opened Wrappers
  import opened Users

  /** The status and message of the one failure answer: "wrong account or
      password", whichever of the two was wrong. */
  const UNAUTHORIZED: int := 401
  const WRONG_ACCOUNT_OR_PASSWORD: string := "账号或密码错误"

  /** The user object of a successful answer. It has no password hash and no
      email. */
  datatype UserView = UserView(
    id: Value,
    username: Value,
    role: Value,
    isActive: Value,
    vipExpireTime: Expiry
  )

  datatype Response =
    | Success(user: UserView)
    | Failure(status: int, message: string)

  /** A field of the JSON request body: missing or `null`, which the driver
      binds as SQL NULL, or a string. */
  datatype Field = Missing | Str(s: string)

  /** The query's WHERE clause: `(username = account OR email = account) AND
      password_hash = password`. NULL, in a column or as a bound field,
      equals nothing. */
  predicate Matches(u: User, account: Field, password: Field) {
    && account.Str? && password.Str?
    && (u.username == Text(account.s) || u.email == Text(account.s))
    && u.passwordHash == Text(password.s)
  }

  /** The rows the query returns, in the order the server returns them. */
  function Select(rows: seq<User>, account: Field, password: Field): (r: seq<User>)
    ensures forall u :: u in r <==> u in rows && Matches(u, account, password)
    ensures |r| <= |rows|
  {
    if rows == [] then []
    else if Matches(rows[0], account, password) then [rows[0]] + Select(rows[1..], account, password)
    else Select(rows[1..], account, password)
  }

  /** Reference definition of "the first matching row in the server's order":
      the index of the first row satisfying the WHERE clause, if any. */
  function FirstMatch(rows: seq<User>, account: Field, password: Field): (r: Option<nat>)
    ensures r.None? <==> forall j :: 0 <= j < |rows| ==> !Matches(rows[j], account, password)
    ensures r.Some? ==> r.value < |rows| && Matches(rows[r.value], account, password)
    ensures r.Some? ==> forall j :: 0 <= j < r.value ==> !Matches(rows[j], account, password)
  {
    if rows == [] then None
    else if Matches(rows[0], account, password) then Some(0)
    else match FirstMatch(rows[1..], account, password)
      case None => None
      case Some(i) => Some(i + 1)
  }

  /** The VIP deadline has passed: a known instant strictly before `now`. */
  predicate Expired(e: Expiry, now: int) {
    e.At? && now > e.time
  }

  /** The `is_active` reported to the caller: the stored flag, cleared to `0`
      when it is truthy and the expiry is set and already past. */
  function EffectiveActive(stored: Value, e: Expiry, now: int): (r: Value)
    ensures Truthy(r) <==> Truthy(stored) && !Expired(e, now)
    ensures r == stored || r == Num(0)
    ensures !Expired(e, now) ==> r == stored
    ensures !Truthy(stored) ==> r == stored
  {
    if Truthy(stored) && IsSet(e) && (e.At? && now > e.time) then Num(0) else stored
  }

  /** The user object built from a selected row at time `now`. */
  function View(u: User, now: int): (v: UserView)
    ensures Truthy(u.userId) ==> v.id == u.userId
    ensures !Truthy(u.userId) ==> v.id == u.id
    ensures v.username == u.username && v.role == u.role && v.vipExpireTime == u.vipExpireTime
    ensures v.isActive == EffectiveActive(u.isActive, u.vipExpireTime, now)
    ensures Truthy(v.isActive) <==> Truthy(u.isActive) && !Expired(u.vipExpireTime, now)
  {
    UserView(
      if Truthy(u.userId) then u.userId else u.id,
      u.username,
      u.role,
      EffectiveActive(u.isActive, u.vipExpireTime, now),
      u.vipExpireTime)
  }

  /** The handler: query, then 401 on an empty result, else the first row. */
  function Login(rows: seq<User>, account: Field, password: Field, now: int): (r: Response)
    ensures r.Failure? <==> forall u :: u in rows ==> !Matches(u, account, password)
    ensures match FirstMatch(rows, account, password)
      case None => r == Failure(UNAUTHORIZED, WRONG_ACCOUNT_OR_PASSWORD)
      case Some(i) => r == Success(View(rows[i], now))
  {
    var users := Select(rows, account, password);
    SelectHeadIsFirstMatch(rows, account, password);
    if |users| > 0 then Success(View(users[0], now))
    else Failure(UNAUTHORIZED, WRONG_ACCOUNT_OR_PASSWORD)
  }

  /** Filtering and then taking the head finds the same row as the scan. */
  lemma {:induction false} SelectHeadIsFirstMatch(rows: seq<User>, account: Field, password: Field)
    ensures FirstMatch(rows, account, password).None? <==> Select(rows, account, password) == []
    ensures FirstMatch(rows, account, password).Some? ==>
      Select(rows, account, password)[0] == rows[FirstMatch(rows, account, password).value]
  {
    if rows != [] && !Matches(rows[0], account, password) {
      SelectHeadIsFirstMatch(rows[1..], account, password);
    }
  }

  /** The query distributes over a split of the table. */
  lemma {:induction false} SelectAppend(front: seq<User>, back: seq<User>, account: Field, password: Field)
    ensures Select(front + back, account, password) == Select(front, account, password) + Select(back, account, password)
  {
    if front == [] {
      assert front + back == back;
    } else {
      assert (front + back)[0] == front[0];
      assert (front + back)[1..] == front[1..] + back;
      SelectAppend(front[1..], back, account, password);
    }
  }

  /** Once a matching row is returned, rows returned after it do not change the answer. */
  lemma LaterRowsIrrelevant(rows: seq<User>, later: seq<User>, account: Field, password: Field, now: int)
    requires exists u :: u in rows && Matches(u, account, password)
    ensures Login(rows + later, account, password, now) == Login(rows, account, password, now)
  {
    SelectAppend(rows, later, account, password);
    var u :| u in rows && Matches(u, account, password);
    assert u in Select(rows, account, password);
  }

  /** Non-matching rows returned before the match do not change the answer. */
  lemma EarlierMismatchesIrrelevant(earlier: seq<User>, rows: seq<User>, account: Field, password: Field, now: int)
    requires forall u :: u in earlier ==> !Matches(u, account, password)
    ensures Login(earlier + rows, account, password, now) == Login(rows, account, password, now)
  {
    SelectAppend(earlier, rows, account, password);
    var skipped := Select(earlier, account, password);
    assert forall k :: 0 <= k < |skipped| ==> skipped[k] in skipped;
  }

  /** An unknown account and a wrong password are indistinguishable: every
      pair of credentials that matches no row gets the same answer, at any time. */
  lemma FailuresIndistinguishable(rows: seq<User>, account1: Field, password1: Field, now1: int,
                                  account2: Field, password2: Field, now2: int)
    requires forall u :: u in rows ==> !Matches(u, account1, password1)
    requires forall u :: u in rows ==> !Matches(u, account2, password2)
    ensures Login(rows, account1, password1, now1) == Login(rows, account2, password2, now2)
    ensures Login(rows, account1, password1, now1) == Failure(UNAUTHORIZED, WRONG_ACCOUNT_OR_PASSWORD)
  {
  }

  /** A request without an account or without a password is answered with the
      same 401 as wrong credentials, whatever the table holds. */
  lemma MissingFieldRejected(rows: seq<User>, account: Field, password: Field, now: int)
    requires account.Missing? || password.Missing?
    ensures Login(rows, account, password, now) == Failure(UNAUTHORIZED, WRONG_ACCOUNT_OR_PASSWORD)
  {
  }

  /** A truthy stored flag with a deadline strictly before `now` is reported as `0`. */
  lemma ExpiredVipReportedInactive(rows: seq<User>, account: Field, password: Field, now: int, i: nat)
    requires FirstMatch(rows, account, password) == Some(i)
    requires Truthy(rows[i].isActive) && rows[i].vipExpireTime.At? && now > rows[i].vipExpireTime.time
    ensures Login(rows, account, password, now).Success?
    ensures Login(rows, account, password, now).user.isActive == Num(0)
  {
  }

  /** Without a usable deadline (NULL or empty) the stored flag is reported as
      stored, whatever the time. */
  lemma NoExpiryKeepsStoredFlag(rows: seq<User>, account: Field, password: Field, now: int, i: nat)
    requires FirstMatch(rows, account, password) == Some(i)
    requires rows[i].vipExpireTime == Unset || rows[i].vipExpireTime == Blank
    ensures Login(rows, account, password, now).Success?
    ensures Login(rows, account, password, now).user.isActive == rows[i].isActive
  {
  }

  /** The comparison is strict: at the deadline itself the stored flag still stands. */
  lemma ExpiryBoundaryIsStrict(stored: Value, deadline: int)
    ensures EffectiveActive(stored, At(deadline), deadline) == stored
    ensures Truthy(stored) ==> !Truthy(EffectiveActive(stored, At(deadline), deadline + 1))
  {
  }

  /** Expiry is permanent: a flag reported cleared stays cleared later on. */
  lemma ExpiryIsPermanent(stored: Value, e: Expiry, now1: int, now2: int)
    requires now1 <= now2
    ensures !Truthy(EffectiveActive(stored, e, now1)) ==> !Truthy(EffectiveActive(stored, e, now2))
  {
  }

  /** The password hash and the email never reach the answer: rows that differ
      only in those columns give the same user object. */
  lemma ViewIgnoresCredentials(u: User, passwordHash: Value, email: Value, now: int)
    ensures View(u.(passwordHash := passwordHash, email := email), now) == View(u, now)
  {
  }
}

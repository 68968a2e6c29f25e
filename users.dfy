/**
  The `users` table as the login handler sees it: one record per row, as the
  MySQL driver hands it to JavaScript. Column values keep the distinctions the
  handler's `&&` and `||` depend on (JavaScript truthiness), and the VIP
  expiry keeps the distinctions its date comparison depends on.
 */
module Users {

  /** A scalar column value as it arrives in JavaScript: SQL NULL (or a column
      the table does not have, which reads as `undefined`), a number or a
      string. */
  datatype Value = Null | Num(n: int) | Text(s: string)

  /** JavaScript truthiness of a column value: `null`, `0` and `""` are falsy. */
  predicate Truthy(v: Value) {
    match v
    case Null => false
    case Num(n) => n != 0
    case Text(s) => s != ""
  }

  /** The `vip_expire_time` column. `Unset` is SQL NULL and `Blank` an empty
      string (both falsy). `At(time)` is an instant the JavaScript `Date`
      constructor reads as `time` (milliseconds, the same clock as the
      handler's `now`). `Unparseable` is a non-empty value for which `Date`
      yields an invalid date: it is truthy, but every comparison with it is
      false. */
  datatype Expiry = Unset | Blank | At(time: int) | Unparseable

  /** Truthiness of the expiry column (a `Date` object is always truthy). */
  predicate IsSet(e: Expiry) {
    e.At? || e.Unparseable?
  }

  /** One row of `users` (`SELECT *`). `userId` and `id` are the two names the
      primary key goes by in different deployments; the one the table lacks
      reads as `Null`. */
  datatype User = User(
    userId: Value,
    id: Value,
    username: Value,
    email: Value,
    passwordHash: Value,
    role: Value,
    isActive: Value,
    vipExpireTime: Expiry
  )
}

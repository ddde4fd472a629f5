/** The `register` form action: field checks in a fixed order, then createUser and
    createSession. */
module RegisterPage {
  import opened Wrappers
  import opened Db
  import opened Http
  import opened Regex
  import Auth
  import Text
  import Bcrypt

  const UsernameRule: string := "Username must be 5-20 characters and contain only letters, numbers, or underscores."
  const PasswordRule: string := "Password must be at least 8 characters, include an uppercase letter, a number, and a special character."

  /** `err.message || 'Internal Server Error'`. */
  function ErrorText(message: string): (text: string)
    ensures text != ""
    ensures message != "" ==> text == message
  {
    if message != "" then message else "Internal Server Error"
  }

  /** Both fields present, the name matching its pattern and the password its policy. */
  predicate FieldsValid(username: Option<string>, password: Option<string>) {
    Present(username) && Present(password) && UsernamePattern(username.value) && RegisterPasswordPattern(password.value)
  }

  /** The checks before any database work, in the handler's order: the message of the first
      that fails, or None when the form may go on to createUser. */
  function FormError(username: Option<string>, password: Option<string>): (e: Option<string>)
    ensures e.None? <==> FieldsValid(username, password)
    ensures !Present(username) || !Present(password) ==> e == Some("Username and password are required")
    ensures Present(username) && Present(password) && !UsernamePattern(username.value) ==> e == Some(UsernameRule)
    ensures Present(username) && Present(password) && UsernamePattern(username.value) && !RegisterPasswordPattern(password.value) ==>
              e == Some(PasswordRule)
  {
    if !Present(username) || !Present(password) then Some("Username and password are required")
    else if !UsernamePattern(username.value) then Some(UsernameRule)
    else if !RegisterPasswordPattern(password.value) then Some(PasswordRule)
    else None
  }

  /** The new user's id is `userId` and its session's id `sessionId` (the two uuids). */
  method Register(db: Database, req: RequestInfo, username: Option<string>, password: Option<string>,
                  userId: string, sessionId: string, now: int)
    returns (reply: Reply<()>, cookie: CookieChange)
    requires db.Valid()
    modifies db
    ensures db.Valid()
    ensures db.passkeys == old(db.passkeys) && db.vault == old(db.vault) && db.vaultSequence == old(db.vaultSequence)
    ensures FormError(username, password).Some? ==>
              reply == Fail(400, "error", FormError(username, password).value) && db.users == old(db.users)
    ensures FieldsValid(username, password) && (HasUser(old(db.users), userId) || HasUsername(old(db.users), username.value)) ==>
              reply == Fail(500, "error", "Username already exists") && db.users == old(db.users)
    ensures FieldsValid(username, password) && !HasUser(old(db.users), userId) && !HasUsername(old(db.users), username.value) ==>
              db.users == old(db.users) + [UserRow(userId, username.value, Bcrypt.HashPassword(password.value), None, 0)]
    ensures reply == Redirect(303, "/") <==>
              FieldsValid(username, password) && !HasUser(old(db.users), userId) && !HasUsername(old(db.users), username.value)
              && sessionId !in old(db.sessions)
    ensures reply == Redirect(303, "/") ==>
              cookie == SessionCookie(sessionId, req)
              && db.sessions == old(db.sessions)[sessionId := SessionRow(sessionId, userId, Text.IsoString(now + Auth.SessionTtlMs))]
    ensures reply != Redirect(303, "/") ==> cookie == KeepCookie && db.sessions == old(db.sessions)
  {
    var invalid := FormError(username, password);
    if invalid.Some? {
      return Fail(400, "error", invalid.value), KeepCookie;
    }
    var user := Auth.CreateUser(db, username.value, password.value, userId);
    if user.Err? {
      return Fail(500, "error", ErrorText(user.message)), KeepCookie;
    }
    var session := Auth.CreateSession(db, user.value.id, sessionId, now);
    if session.Err? {
      return Fail(500, "error", ErrorText(session.message)), KeepCookie;
    }
    reply, cookie := Redirect(303, "/"), SessionCookie(session.value, req);
  }
}

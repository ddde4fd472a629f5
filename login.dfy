/** The `login` form action: password sign-in. The 2FA flag is returned by verifyUser but
    never consulted, so a password alone opens a session. */
module LoginPage {
  import opened Wrappers
  import opened Db
  import opened Http
  import Auth
  import Text
  import Bcrypt

  /** The session id is the parameter `sessionId` (createSession's uuid); `now` is the clock. */
  method Login(db: Database, req: RequestInfo, username: Option<string>, password: Option<string>, sessionId: string, now: int)
    returns (reply: Reply<()>, cookie: CookieChange)
    requires db.Valid()
    modifies db
    ensures db.Valid()
    ensures db.users == old(db.users) && db.passkeys == old(db.passkeys)
    ensures db.vault == old(db.vault) && db.vaultSequence == old(db.vaultSequence)
    ensures !Present(username) || !Present(password) ==>
              reply == Fail(400, "error", "Username and password are required")
    ensures Present(username) && Present(password) && Auth.VerifyUser(old(db.users), username.value, password.value).None? ==>
              reply == Fail(400, "error", "Invalid username or password")
    ensures reply == Redirect(303, "/") <==>
              && Present(username) && Present(password)
              && Auth.VerifyUser(old(db.users), username.value, password.value).Some?
              && sessionId !in old(db.sessions)
    ensures reply == Redirect(303, "/") ==>
              && cookie == SessionCookie(sessionId, req)
              && db.sessions == old(db.sessions)[sessionId := SessionRow(sessionId,
                   Auth.VerifyUser(old(db.users), username.value, password.value).value.id,
                   Text.IsoString(now + Auth.SessionTtlMs))]
    ensures reply != Redirect(303, "/") ==> cookie == KeepCookie && db.sessions == old(db.sessions)
    ensures reply.Thrown? ==> sessionId in old(db.sessions)
  {
    if !Present(username) || !Present(password) {
      return Fail(400, "error", "Username and password are required"), KeepCookie;
    }
    var user := Auth.VerifyUser(db.users, username.value, password.value);
    if user.None? {
      return Fail(400, "error", "Invalid username or password"), KeepCookie;
    }
    var created := Auth.CreateSession(db, user.value.id, sessionId, now);
    if created.Err? {
      return Thrown(created.message), KeepCookie;
    }
    reply, cookie := Redirect(303, "/"), SessionCookie(created.value, req);
  }

  /** Two tables whose rows agree, index by index, on name and hash admit the same logins. */
  lemma SameCredentialsSameLogins(users: seq<UserRow>, after: seq<UserRow>, username: string, password: string)
    requires UsersOk(users) && UsersOk(after) && |after| == |users|
    requires forall i :: 0 <= i < |users| ==> after[i].username == users[i].username && after[i].passwordHash == users[i].passwordHash
    ensures Auth.VerifyUser(after, username, password).Some? == Auth.VerifyUser(users, username, password).Some?
  {
    Auth.VerifyUserExact(users, username, password);
    Auth.VerifyUserExact(after, username, password);
    if u :| u in after && u.username == username && Bcrypt.Compare(password, u.passwordHash) {
      var i :| 0 <= i < |after| && after[i] == u;
      assert users[i] in users;
    }
    if u :| u in users && u.username == username && Bcrypt.Compare(password, u.passwordHash) {
      var i :| 0 <= i < |users| && users[i] == u;
      assert after[i] in after;
    }
  }

  /** Turning 2FA on for any user does not change who can sign in with a password. */
  lemma TwoFactorDoesNotGateLogin(users: seq<UserRow>, userId: string, username: string, password: string)
    requires UsersOk(users)
    ensures Auth.VerifyUser(UpdateUsers(users, userId, SetTwoFactorEnabled), username, password).Some? ==
            Auth.VerifyUser(users, username, password).Some?
  {
    UpdateUsersKeepsKeys(users, userId, SetTwoFactorEnabled);
    SameCredentialsSameLogins(users, UpdateUsers(users, userId, SetTwoFactorEnabled), username, password);
  }
}

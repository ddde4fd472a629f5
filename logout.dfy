/** `POST /logout`: revoke the cookie's session. */
module LogoutRoute {
  import opened Wrappers
  import opened Db
  import opened Http
  import Auth
  import Hooks

  method Post(db: Database, cookie: Option<string>) returns (reply: Reply<()>, change: CookieChange)
    requires db.Valid()
    modifies db
    ensures db.Valid()
    ensures reply == Redirect(303, "/login")
    ensures Present(cookie) ==> db.sessions == old(db.sessions) - {cookie.value} && change == DeleteSessionCookie("/")
    ensures !Present(cookie) ==> db.sessions == old(db.sessions) && change == KeepCookie
    ensures db.users == old(db.users) && db.passkeys == old(db.passkeys)
    ensures db.vault == old(db.vault) && db.vaultSequence == old(db.vaultSequence)
  {
    if Present(cookie) {
      Auth.DeleteSession(db, cookie.value);
      change := DeleteSessionCookie("/");
    } else {
      change := KeepCookie;
    }
    reply := Redirect(303, "/login");
  }

  /** A second logout with the same id finds nothing more to delete. */
  lemma LogoutIdempotent(sessions: map<string, SessionRow>, sessionId: string)
    ensures (sessions - {sessionId}) - {sessionId} == sessions - {sessionId}
  {
  }

  /** After logout the old cookie no longer signs anyone in, whatever the time. */
  lemma LoggedOutCookieResolvesNobody(sessions: map<string, SessionRow>, users: seq<UserRow>, sessionId: string, now: int)
    ensures Hooks.ResolveUser(sessions - {sessionId}, users, Some(sessionId), now).None?
  {
  }
}

/** `POST /api/passkey/auth-verify`: checks the browser's assertion against the challenge
    stored for the claimed `userId` and, when the verifier accepts it, signs in the owner of
    the matched credential. */
module PasskeyAuthVerify {
  import opened Wrappers
  import opened Db
  import opened Http
  import opened WebAuthn
  import opened Challenges
  import opened Passkey
  import Auth
  import Text

  const LoggedIn: Reply<string> := Json(200, "Logged in successfully with passkey")

  /** The verdict the verifier gives for this response against the stored credential. */
  function Verdict(passkeys: seq<PasskeyRow>, response: AuthenticationResponse, challenge: string,
                   verifier: AuthenticationVerifier): (v: Option<AuthenticationVerdict>)
    ensures v.Some? <==> LookupCredential(passkeys, response).Some?
  {
    match LookupCredential(passkeys, response)
    case None => None
    case Some(c) => Some(verifier(AuthenticationCallFor(response, challenge, c)))
  }

  /** The database half of the handler, once a challenge was found: verify, then open a
      session for the credential's owner. `consumed` tells whether the verifier returned a
      verdict, which is when the handler deletes the challenge. */
  method SignIn(db: Database, req: RequestInfo, response: AuthenticationResponse, challenge: string,
                verifier: AuthenticationVerifier, sessionId: string, now: int)
    returns (reply: Reply<string>, cookie: CookieChange, consumed: bool)
    requires db.Valid()
    modifies db
    ensures db.Valid()
    ensures var v := Verdict(old(db.passkeys), response, challenge, verifier);
            && (consumed <==> v.Some? && v.value.AuthenticationReturned?)
            && (v.None? ==> reply == JsonError(500, "Credential not found"))
            && (v.Some? && v.value.AuthenticationThrew? ==> reply == JsonError(500, "Failed to verify authentication"))
            && (v.Some? && v.value.AuthenticationReturned? && !v.value.verified ==>
                  reply == JsonError(400, "Authentication verification failed"))
            && (reply == LoggedIn <==> consumed && v.value.verified && sessionId !in old(db.sessions))
            && db.passkeys == if consumed && v.value.verified
                              then UpdateCounter(old(db.passkeys), LookupCredential(old(db.passkeys), response).value.id,
                                                 v.value.newCounter, Text.SqliteDateTime(now))
                              else old(db.passkeys)
    ensures reply == LoggedIn ==>
              && var c := LookupCredential(old(db.passkeys), response).value;
                 && cookie == SessionCookie(sessionId, req)
                 && db.sessions == old(db.sessions)[sessionId := SessionRow(sessionId, c.userId, Text.IsoString(now + Auth.SessionTtlMs))]
    ensures reply != LoggedIn ==> cookie == KeepCookie && db.sessions == old(db.sessions)
    ensures db.users == old(db.users) && db.vault == old(db.vault) && db.vaultSequence == old(db.vaultSequence)
  {
    var result := VerifyAuthentication(db, response, challenge, verifier, now);
    if result.Err? {
      return JsonError(500, result.message), KeepCookie, false;
    }
    consumed := true;
    if result.value.NotAuthenticated? {
      return JsonError(400, "Authentication verification failed"), KeepCookie, consumed;
    }
    var session := Auth.CreateSession(db, result.value.userId, sessionId, now);
    if session.Err? {
      return JsonError(500, session.message), KeepCookie, consumed;
    }
    reply, cookie := LoggedIn, SessionCookie(session.value, req);
  }

  /** `userId` is the JSON body's field (None when absent). The challenge is deleted once the
      verifier has returned a verdict, whatever it is, and kept when it threw. */
  method Post(db: Database, store: ChallengeMap, req: RequestInfo, response: AuthenticationResponse, userId: Option<string>,
              verifier: AuthenticationVerifier, sessionId: string, now: int)
    returns (reply: Reply<string>, cookie: CookieChange)
    requires db.Valid() && store.Valid() && store.Settled(now)
    modifies db, store
    ensures db.Valid() && store.Valid()
    ensures userId.None? || !Present(old(store.Get(userId.value))) ==>
              reply == JsonError(400, "Challenge not found or expired") && cookie == KeepCookie
              && unchanged(db) && unchanged(store)
    ensures store.timers == old(store.timers)
    ensures userId.Some? && Present(old(store.Get(userId.value))) ==>
              var v := Verdict(old(db.passkeys), response, old(store.entries)[userId.value], verifier);
              && store.entries == (if v.Some? && v.value.AuthenticationReturned? then old(store.entries) - {userId.value}
                                   else old(store.entries))
              && (v.None? ==> reply == JsonError(500, "Credential not found"))
              && (v.Some? && v.value.AuthenticationThrew? ==> reply == JsonError(500, "Failed to verify authentication"))
              && (v.Some? && v.value.AuthenticationReturned? && !v.value.verified ==>
                    reply == JsonError(400, "Authentication verification failed"))
              && (reply == LoggedIn <==> v.Some? && v.value.AuthenticationReturned? && v.value.verified && sessionId !in old(db.sessions))
              && db.passkeys == if v.Some? && v.value.AuthenticationReturned? && v.value.verified
                                then UpdateCounter(old(db.passkeys), LookupCredential(old(db.passkeys), response).value.id,
                                                   v.value.newCounter, Text.SqliteDateTime(now))
                                else old(db.passkeys)
    ensures reply == LoggedIn ==>
              && var c := LookupCredential(old(db.passkeys), response).value;
                 && cookie == SessionCookie(sessionId, req)
                 && db.sessions == old(db.sessions)[sessionId := SessionRow(sessionId, c.userId, Text.IsoString(now + Auth.SessionTtlMs))]
    ensures reply != LoggedIn ==> cookie == KeepCookie && db.sessions == old(db.sessions)
    ensures db.users == old(db.users) && db.vault == old(db.vault) && db.vaultSequence == old(db.vaultSequence)
  {
    if userId.None? {
      return JsonError(400, "Challenge not found or expired"), KeepCookie;
    }
    var expectedChallenge := store.Get(userId.value);
    if !Present(expectedChallenge) {
      return JsonError(400, "Challenge not found or expired"), KeepCookie;
    }
    var consumed;
    reply, cookie, consumed := SignIn(db, req, response, expectedChallenge.value, verifier, sessionId, now);
    if consumed {
      store.Delete(userId.value);
    }
  }
}

/** `POST /api/passkey/register-verify`: checks the browser's attestation against the
    challenge found in this route's own module-level Map, which no code ever writes to. */
module PasskeyRegisterVerify {
  import opened Wrappers
  import opened Db
  import opened Http
  import opened WebAuthn
  import opened Challenges
  import opened Passkey

  /** The database half of the handler, once a challenge was found: verify and store the
      credential. `consumed` tells whether the handler then deletes the challenge, which is
      whenever verifyRegistration returned rather than threw. */
  method Register(db: Database, userId: string, response: RegistrationResponse, challenge: string,
                  verifier: RegistrationVerifier, id: string, now: int)
    returns (reply: Reply<string>, consumed: bool)
    requires db.Valid()
    modifies db
    ensures db.Valid()
    ensures match verifier(RegistrationCallFor(response, challenge))
            case RegistrationThrew(m) =>
              reply == JsonError(500, "Failed to verify registration: " + m) && !consumed && db.passkeys == old(db.passkeys)
            case RegistrationReturned(verified, info) =>
              if verified && info.Some? then
                var row := CredentialRow(id, userId, DefaultName, info.value, now);
                var e := PasskeyInsertError(old(db.passkeys), old(db.users), row);
                if e.Some? then reply == JsonError(500, e.value) && !consumed && db.passkeys == old(db.passkeys)
                else reply == Json(200, "Passkey registered successfully") && consumed && db.passkeys == old(db.passkeys) + [row]
              else reply == JsonError(400, "Registration verification failed") && consumed && db.passkeys == old(db.passkeys)
    ensures db.users == old(db.users) && db.sessions == old(db.sessions)
    ensures db.vault == old(db.vault) && db.vaultSequence == old(db.vaultSequence)
  {
    var result := VerifyRegistration(db, userId, response, challenge, DefaultName, verifier, id, now);
    if result.Err? {
      return JsonError(500, result.message), false;
    }
    if result.value.Registered? {
      reply := Json(200, "Passkey registered successfully");
    } else {
      reply := JsonError(400, "Registration verification failed");
    }
    consumed := true;
  }

  /** A missing challenge and the 401 change nothing; a verifier or store error is answered
      with 500 and leaves the challenge in place; any verdict deletes it, and only a verified
      one with a credential adds a passkey row. The Map only ever loses keys. */
  method Post(db: Database, store: ChallengeMap, user: Option<SessionUser>, response: RegistrationResponse,
              verifier: RegistrationVerifier, id: string, now: int)
    returns (reply: Reply<string>)
    requires db.Valid() && store.Valid() && store.Settled(now)
    modifies db, store
    ensures db.Valid() && store.Valid()
    ensures user.None? ==> reply == JsonError(401, "Unauthorized")
    ensures user.Some? && !Present(old(store.Get(user.value.id))) ==> reply == JsonError(400, "Challenge not found or expired")
    ensures user.None? || !Present(old(store.Get(user.value.id))) ==> unchanged(db) && unchanged(store)
    ensures store.entries.Keys <= old(store.entries).Keys && store.timers == old(store.timers)
    ensures reply == Json(200, "Passkey registered successfully") <==>
              && user.Some? && Present(old(store.Get(user.value.id)))
              && match verifier(RegistrationCallFor(response, old(store.entries)[user.value.id]))
                 case RegistrationThrew(_) => false
                 case RegistrationReturned(verified, info) =>
                   verified && info.Some?
                   && PasskeyInsertError(old(db.passkeys), old(db.users), CredentialRow(id, user.value.id, DefaultName, info.value, now)).None?
    ensures reply == Json(200, "Passkey registered successfully") ==>
              && store.entries == old(store.entries) - {user.value.id}
              && exists info :: db.passkeys == old(db.passkeys) + [CredentialRow(id, user.value.id, DefaultName, info, now)]
    ensures reply != Json(200, "Passkey registered successfully") ==> db.passkeys == old(db.passkeys)
    ensures reply == JsonError(400, "Registration verification failed") ==> store.entries == old(store.entries) - {user.value.id}
    ensures reply.JsonError? && reply.status == 500 ==> store.entries == old(store.entries)
    ensures user.Some? && Present(old(store.Get(user.value.id))) ==>
              match verifier(RegistrationCallFor(response, old(store.entries)[user.value.id]))
              case RegistrationThrew(m) =>
                reply == JsonError(500, "Failed to verify registration: " + m) && store.entries == old(store.entries)
              case RegistrationReturned(verified, info) =>
                if verified && info.Some? then
                  var e := PasskeyInsertError(old(db.passkeys), old(db.users), CredentialRow(id, user.value.id, DefaultName, info.value, now));
                  if e.Some? then reply == JsonError(500, e.value) && store.entries == old(store.entries)
                  else reply == Json(200, "Passkey registered successfully") && store.entries == old(store.entries) - {user.value.id}
                else reply == JsonError(400, "Registration verification failed") && store.entries == old(store.entries) - {user.value.id}
    ensures db.users == old(db.users) && db.sessions == old(db.sessions)
    ensures db.vault == old(db.vault) && db.vaultSequence == old(db.vaultSequence)
  {
    if user.None? {
      return JsonError(401, "Unauthorized");
    }
    var expectedChallenge := store.Get(user.value.id);
    if !Present(expectedChallenge) {
      return JsonError(400, "Challenge not found or expired");
    }
    var consumed;
    reply, consumed := Register(db, user.value.id, response, expectedChallenge.value, verifier, id, now);
    if consumed {
      store.Delete(user.value.id);
    }
  }
}

/** A passkey registration end to end: the options request followed by the verification
    request. The two routes each declare their own module-level Map for challenges; the
    options route fills its own, and the verify route only ever reads and deletes from its
    own, which starts empty. */
module PasskeyRegistrationFlow {
  import opened Wrappers
  import opened Db
  import opened Http
  import opened WebAuthn
  import opened Challenges
  import opened Passkey
  import PasskeyRegisterOptions
  import PasskeyRegisterVerify

  /** The routes as written: `optionsStore` and `verifyStore` are the two distinct Maps, the
      latter as the module created it. Whatever the browser sends and however the verifier
      judges it, verification answers that the challenge is missing and no passkey is stored. */
  method RegisterAsWritten(db: Database, optionsStore: ChallengeMap, verifyStore: ChallengeMap, user: Option<SessionUser>,
                           challenge: string, response: RegistrationResponse, verifier: RegistrationVerifier, id: string, now: int)
    returns (options: Reply<RegistrationOptions>, reply: Reply<string>)
    requires db.Valid() && optionsStore.Valid() && verifyStore.Valid()
    requires optionsStore.Settled(now) && verifyStore.Settled(now)
    requires optionsStore != verifyStore && verifyStore.entries == map[]
    modifies db, optionsStore, verifyStore
    ensures reply == (if user.None? then JsonError(401, "Unauthorized") else JsonError(400, "Challenge not found or expired"))
    ensures db.passkeys == old(db.passkeys) && verifyStore.entries == map[]
  {
    options := PasskeyRegisterOptions.Post(db.users, optionsStore, user, challenge, now);
    reply := PasskeyRegisterVerify.Post(db, verifyStore, user, response, verifier, id, now);
  }

  /** The evidently intended wiring: both routes share one store. A signed-in user who
      exists gets the options, and the following verification registers the credential
      exactly when the verifier accepts it and the new row violates no constraint; the
      challenge is then used up. */
  method RegisterShared(db: Database, store: ChallengeMap, user: Option<SessionUser>, challenge: string,
                        response: RegistrationResponse, verifier: RegistrationVerifier, id: string, now: int)
    returns (options: Reply<RegistrationOptions>, reply: Reply<string>)
    requires db.Valid() && store.Valid() && store.Settled(now)
    requires challenge != ""
    modifies db, store
    ensures db.Valid() && store.Valid()
    ensures options.Json? <==> user.Some? && HasUser(old(db.users), user.value.id)
    ensures reply == Json(200, "Passkey registered successfully") <==>
              && options.Json?
              && match verifier(RegistrationCallFor(response, challenge))
                 case RegistrationThrew(_) => false
                 case RegistrationReturned(verified, info) =>
                   verified && info.Some?
                   && PasskeyInsertError(old(db.passkeys), old(db.users), CredentialRow(id, user.value.id, DefaultName, info.value, now)).None?
    ensures reply == Json(200, "Passkey registered successfully") ==>
              && store.entries == old(store.entries) - {user.value.id}
              && exists info :: db.passkeys == old(db.passkeys) + [CredentialRow(id, user.value.id, DefaultName, info, now)]
    ensures options.Json? && reply != Json(200, "Passkey registered successfully") ==> db.passkeys == old(db.passkeys)
  {
    options := PasskeyRegisterOptions.Post(db.users, store, user, challenge, now);
    reply := PasskeyRegisterVerify.Post(db, store, user, response, verifier, id, now);
  }
}

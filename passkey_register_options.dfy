/** `POST /api/passkey/register-options`: registration options for the signed-in user. The
    challenge goes into this route's own module-level Map, with a five-minute deletion timer. */
module PasskeyRegisterOptions {
  import opened Wrappers
  import opened Db
  import opened Http
  import opened WebAuthn
  import opened Challenges
  import Passkey

  /** `challenge` is the one the options generator draws. */
  method Post(users: seq<UserRow>, store: ChallengeMap, user: Option<SessionUser>, challenge: string, now: int)
    returns (reply: Reply<RegistrationOptions>)
    requires store.Valid() && store.Settled(now)
    modifies store
    ensures store.Valid()
    ensures user.None? ==> reply == JsonError(401, "Unauthorized")
    ensures user.Some? && !HasUser(users, user.value.id) ==> reply == JsonError(500, "User not found")
    ensures !reply.Json? ==> unchanged(store)
    ensures reply.Json? <==> user.Some? && HasUser(users, user.value.id)
    ensures reply.Json? ==>
              && reply.status == 200
              && reply.body == Passkey.GenerateRegistrationOptions(users, user.value.id, user.value.username, challenge).value
              && store.entries == old(store.entries)[user.value.id := challenge]
              && store.timers == old(store.timers) + [Timer(now + ExpiryMs, user.value.id)]
    ensures reply.Json? ==> reply.body.userId == user.value.id && reply.body.challenge == store.entries[user.value.id]
  {
    if user.None? {
      return JsonError(401, "Unauthorized");
    }
    var options := Passkey.GenerateRegistrationOptions(users, user.value.id, user.value.username, challenge);
    if options.Err? {
      return JsonError(500, options.message);
    }
    store.Store(user.value.id, options.value.challenge, now);
    reply := Json(200, options.value);
  }
}

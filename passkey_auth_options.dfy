/** `POST /api/passkey/auth-options`: authentication options for a username, with the
    challenge kept in the shared challenge store under the user's id. */
module PasskeyAuthOptions {
  import opened Wrappers
  import opened Db
  import opened Http
  import opened WebAuthn
  import opened Challenges
  import Auth
  import Passkey

  /** `{ ...options, userId }`. */
  datatype AuthOptionsBody = AuthOptionsBody(options: AuthenticationOptions, userId: string)

  /** `username` is the JSON body's field (None when absent, which matches no row). An unknown
      name gets the same 400 whatever it is, so the answer does not reveal which names exist. */
  method Post(users: seq<UserRow>, store: ChallengeMap, username: Option<string>, challenge: string, now: int)
    returns (reply: Reply<AuthOptionsBody>)
    requires store.Valid() && store.Settled(now)
    modifies store
    ensures store.Valid()
    ensures reply.Json? <==> username.Some? && HasUsername(users, username.value)
    ensures !reply.Json? ==> reply == JsonError(400, "Authentication failed") && unchanged(store)
    ensures reply.Json? ==>
              && reply.status == 200
              && reply.body == AuthOptionsBody(Passkey.GenerateAuthenticationOptions(challenge),
                                               Auth.UserByUsername(users, username.value).value.id)
              && store.entries == old(store.entries)[reply.body.userId := challenge]
              && store.timers == old(store.timers) + [Timer(now + ExpiryMs, reply.body.userId)]
    ensures reply.Json? ==>
              && reply.body.options.challenge == store.entries[reply.body.userId]
              && exists u :: u in users && u.username == username.value && u.id == reply.body.userId
  {
    if username.None? {
      return JsonError(400, "Authentication failed");
    }
    var user := Auth.UserByUsername(users, username.value);
    if user.None? {
      return JsonError(400, "Authentication failed");
    }
    var options := Passkey.GenerateAuthenticationOptions(challenge);
    store.Store(user.value.id, options.challenge, now);
    reply := Json(200, AuthOptionsBody(options, user.value.id));
  }
}

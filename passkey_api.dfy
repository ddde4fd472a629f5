/** `/api/passkey`: the signed-in user lists and deletes their own passkeys. */
module PasskeyApi {
  import opened Wrappers
  import opened Seqs
  import opened Db
  import opened Http
  import opened Passkey

  /** `GET`: the user's passkeys, newest first. */
  function Get(passkeys: seq<PasskeyRow>, user: Option<SessionUser>): (r: Reply<seq<PasskeySummary>>)
    ensures user.None? <==> r == JsonError(401, "Unauthorized")
    ensures user.Some? ==> r.Json? && r.status == 200 && SortedDesc(r.body, SummaryCreatedAt)
    ensures user.Some? ==> forall s :: s in r.body <==> exists p :: p in passkeys && p.userId == user.value.id && s == Summary(p)
  {
    match user
    case None => JsonError(401, "Unauthorized")
    case Some(u) => Json(200, GetUserPasskeys(passkeys, u.id))
  }

  /** `DELETE` with `passkeyId` from the JSON body: 200 when one of the user's own passkeys
      went, 404 otherwise; another user's passkey is never touched. */
  method Delete(db: Database, user: Option<SessionUser>, passkeyId: string) returns (reply: Reply<string>)
    requires db.Valid()
    modifies db
    ensures db.Valid()
    ensures user.None? ==> reply == JsonError(401, "Unauthorized") && db.passkeys == old(db.passkeys)
    ensures user.Some? ==> db.passkeys == Filter(old(db.passkeys), KeptBy(passkeyId, user.value.id))
    ensures user.Some? ==>
              if exists p :: p in old(db.passkeys) && p.id == passkeyId && p.userId == user.value.id
              then reply == Json(200, "Passkey deleted")
              else reply == JsonError(404, "Passkey not found") && db.passkeys == old(db.passkeys)
    ensures user.Some? ==> forall p :: p in old(db.passkeys) && p.userId != user.value.id ==> p in db.passkeys
    ensures db.users == old(db.users) && db.sessions == old(db.sessions)
    ensures db.vault == old(db.vault) && db.vaultSequence == old(db.vaultSequence)
  {
    if user.None? {
      return JsonError(401, "Unauthorized");
    }
    ghost var before := db.passkeys;
    var deleted := DeletePasskey(db, passkeyId, user.value.id);
    if deleted {
      reply := Json(200, "Passkey deleted");
    } else {
      NothingKeptAway(before, passkeyId, user.value.id);
      reply := JsonError(404, "Passkey not found");
    }
  }

  /** Filtering by a predicate every row satisfies gives the table back unchanged. */
  lemma {:induction false} NothingKeptAway(passkeys: seq<PasskeyRow>, passkeyId: string, userId: string)
    requires forall p :: p in passkeys ==> KeptBy(passkeyId, userId)(p)
    ensures Filter(passkeys, KeptBy(passkeyId, userId)) == passkeys
    decreases |passkeys|
  {
    if passkeys != [] {
      assert passkeys[0] in passkeys;
      assert forall p :: p in passkeys[1..] ==> p in passkeys;
      NothingKeptAway(passkeys[1..], passkeyId, userId);
    }
  }
}

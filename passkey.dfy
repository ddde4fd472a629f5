/** `PasskeyAuth`: the passkey credential table and the calls into the WebAuthn library.
    The uuid of a new row and the clock are parameters; the library's verifiers are
    oracles passed in by the caller. */
module Passkey {
  import opened Wrappers
  import opened Seqs
  import opened Db
  import opened Base64
  import opened WebAuthn
  import Text

  const DefaultName: string := "Passkey"

  /** Throws for an unknown user; otherwise asks for a discoverable credential and excludes
      no existing one, so a user may register any number of passkeys. */
  function GenerateRegistrationOptions(users: seq<UserRow>, userId: string, username: string, challenge: string): (r: Result<RegistrationOptions>)
    ensures r.Err? <==> !HasUser(users, userId)
    ensures r.Err? ==> r.message == "User not found"
    ensures r.Ok? ==> r.value.challenge == challenge && r.value.excludeCredentials == []
                        && r.value.userId == userId && r.value.userName == username
                        && r.value.rpName == RpName && r.value.rpId == RpId
                        && r.value.residentKey == "required" && r.value.userVerification == "preferred"
  {
    if !HasUser(users, userId) then Err("User not found")
    else Ok(RegistrationOptions(challenge, RpName, RpId, userId, username, "none", [], "required", "preferred"))
  }

  /** Usernameless flow: no allowCredentials, whatever user id the caller passes. */
  function GenerateAuthenticationOptions(challenge: string): (r: AuthenticationOptions)
    ensures r.challenge == challenge && r.rpId == RpId && r.userVerification == "preferred"
  {
    AuthenticationOptions(challenge, RpId, "preferred")
  }

  /** The row verifyRegistration inserts; `created_at` takes its CURRENT_TIMESTAMP default. */
  function CredentialRow(id: string, userId: string, name: string, info: RegistrationInfo, now: int): (row: PasskeyRow)
    ensures row.userId == userId && row.name == name && row.counter == info.counter
    ensures Decode(row.credentialId) == info.credentialId && Decode(row.publicKey) == info.publicKey
    ensures row.lastUsedAt.None?
  {
    DecodeEncode(info.credentialId, false);
    DecodeEncode(info.publicKey, false);
    PasskeyRow(id, userId, name, Encode(info.credentialId, false), Encode(info.publicKey, false),
               info.counter, Text.SqliteDateTime(now), None)
  }

  datatype RegistrationOutcome = Registered(credentialId: string) | NotRegistered

  /** The call verifyRegistration makes: the configured origin and RP id, user verification required. */
  function RegistrationCallFor(response: RegistrationResponse, expectedChallenge: string): RegistrationCall {
    RegistrationCall(response, expectedChallenge, ExpectedOrigin, RpId, true)
  }

  /** A new row only on a verified verdict with registration information, and then exactly
      one; a thrown verdict is rethrown with a prefix; a store error propagates. */
  method VerifyRegistration(db: Database, userId: string, response: RegistrationResponse, expectedChallenge: string,
                            name: string, verifier: RegistrationVerifier, id: string, now: int)
    returns (r: Result<RegistrationOutcome>)
    requires db.Valid()
    modifies db
    ensures db.Valid()
    ensures verifier(RegistrationCallFor(response, expectedChallenge)).RegistrationThrew? ==>
              r == Err("Failed to verify registration: " + verifier(RegistrationCallFor(response, expectedChallenge)).message)
    ensures r.Ok? && r.value.Registered? <==>
              match verifier(RegistrationCallFor(response, expectedChallenge))
              case RegistrationThrew(_) => false
              case RegistrationReturned(verified, info) =>
                verified && info.Some? && PasskeyInsertError(old(db.passkeys), old(db.users), CredentialRow(id, userId, name, info.value, now)).None?
    ensures r == Ok(NotRegistered) <==>
              match verifier(RegistrationCallFor(response, expectedChallenge))
              case RegistrationThrew(_) => false
              case RegistrationReturned(verified, info) => !verified || info.None?
    ensures r.Ok? && r.value.Registered? ==>
              exists info :: db.passkeys == old(db.passkeys) + [CredentialRow(id, userId, name, info, now)]
                             && verifier(RegistrationCallFor(response, expectedChallenge)) == RegistrationReturned(true, Some(info))
                             && r.value.credentialId == Encode(info.credentialId, false)
    ensures !(r.Ok? && r.value.Registered?) ==> db.passkeys == old(db.passkeys)
    ensures match verifier(RegistrationCallFor(response, expectedChallenge))
            case RegistrationReturned(true, Some(info)) =>
              var e := PasskeyInsertError(old(db.passkeys), old(db.users), CredentialRow(id, userId, name, info, now));
              e.Some? ==> r == Err(e.value)
            case _ => true
    ensures db.users == old(db.users) && db.sessions == old(db.sessions)
    ensures db.vault == old(db.vault) && db.vaultSequence == old(db.vaultSequence)
  {
    var verdict := verifier(RegistrationCallFor(response, expectedChallenge));
    if verdict.RegistrationThrew? {
      return Err("Failed to verify registration: " + verdict.message);
    }
    if verdict.verified && verdict.info.Some? {
      var row := CredentialRow(id, userId, name, verdict.info.value, now);
      var e := PasskeyInsertError(db.passkeys, db.users, row);
      if e.Some? {
        return Err(e.value);
      }
      AppendKeepsDistinct(db.passkeys, PasskeyId, row);
      AppendKeepsDistinct(db.passkeys, CredentialId, row);
      db.passkeys := db.passkeys + [row];
      return Ok(Registered(row.credentialId));
    }
    r := Ok(NotRegistered);
  }

  /** `SELECT * FROM passkey_credentials WHERE credential_id = ?`. */
  function ByCredentialId(passkeys: seq<PasskeyRow>, credentialId: string): (r: Option<PasskeyRow>)
    ensures r.Some? ==> r.value in passkeys && r.value.credentialId == credentialId
    ensures r.None? <==> forall p :: p in passkeys ==> p.credentialId != credentialId
  {
    FindFirst(passkeys, (p: PasskeyRow) => p.credentialId == credentialId)
  }

  /** The base64 conversion of the base64url `response.id` first, then base64 of `rawId`. */
  function LookupCredential(passkeys: seq<PasskeyRow>, response: AuthenticationResponse): (r: Option<PasskeyRow>)
    ensures r.Some? ==> r.value in passkeys
    ensures r.Some? ==> r.value.credentialId == UrlToStandard(response.id)
                        || (response.rawId.Some? && r.value.credentialId == Encode(response.rawId.value, false))
    ensures r.None? <==> (forall p :: p in passkeys ==> p.credentialId != UrlToStandard(response.id))
                         && (response.rawId.None? || forall p :: p in passkeys ==> p.credentialId != Encode(response.rawId.value, false))
    ensures (exists p :: p in passkeys && p.credentialId == UrlToStandard(response.id)) ==>
              r.Some? && r.value.credentialId == UrlToStandard(response.id)
  {
    match ByCredentialId(passkeys, UrlToStandard(response.id))
    case Some(c) => Some(c)
    case None =>
      if response.rawId.Some? then ByCredentialId(passkeys, Encode(response.rawId.value, false)) else None
  }

  /** A credential registered from bytes `b` is found again from the base64url id the
      browser reports for those bytes, under the credential_id UNIQUE constraint. */
  lemma RegisteredCredentialFound(passkeys: seq<PasskeyRow>, row: PasskeyRow, b: seq<byte>, rawId: Option<seq<byte>>, payload: string)
    requires DistinctKeys(passkeys, CredentialId) && row in passkeys && row.credentialId == Encode(b, false)
    ensures LookupCredential(passkeys, AuthenticationResponse(Encode(b, true), rawId, payload)) == Some(row)
  {
    UrlIdMatchesStoredId(b);
    var f := ByCredentialId(passkeys, Encode(b, false));
    DistinctKeysUnique(passkeys, CredentialId, row, f.value);
  }

  /** The stored credential handed to the verifier: both base64 columns decoded and the
      stored counter, with no comparison made here. */
  function AuthenticatorOf(c: PasskeyRow): Authenticator {
    Authenticator(Decode(c.credentialId), Decode(c.publicKey), c.counter)
  }

  function AuthenticationCallFor(response: AuthenticationResponse, expectedChallenge: string, c: PasskeyRow): AuthenticationCall {
    AuthenticationCall(response, expectedChallenge, ExpectedOrigin, RpId, AuthenticatorOf(c), true)
  }

  /** `UPDATE passkey_credentials SET counter = ?, last_used_at = CURRENT_TIMESTAMP WHERE id = ?`. */
  function UpdateCounter(passkeys: seq<PasskeyRow>, id: string, counter: nat, at: string): (r: seq<PasskeyRow>)
    ensures |r| == |passkeys|
    ensures forall i :: 0 <= i < |r| ==>
              r[i] == if passkeys[i].id == id then passkeys[i].(counter := counter, lastUsedAt := Some(at)) else passkeys[i]
  {
    seq(|passkeys|, i requires 0 <= i < |passkeys| =>
      if passkeys[i].id == id then passkeys[i].(counter := counter, lastUsedAt := Some(at)) else passkeys[i])
  }

  /** The counter update keeps the table's constraints, and under the primary key only the
      matched row changes: the others are equal to what they were. */
  lemma UpdateCounterKeepsTable(passkeys: seq<PasskeyRow>, users: seq<UserRow>, c: PasskeyRow, counter: nat, at: string)
    requires PasskeysOk(passkeys, users) && c in passkeys
    ensures PasskeysOk(UpdateCounter(passkeys, c.id, counter, at), users)
    ensures forall i :: 0 <= i < |passkeys| ==>
              UpdateCounter(passkeys, c.id, counter, at)[i] ==
                if passkeys[i] == c then c.(counter := counter, lastUsedAt := Some(at)) else passkeys[i]
    ensures forall p :: p in UpdateCounter(passkeys, c.id, counter, at) <==>
              (p in passkeys && p != c) || p == c.(counter := counter, lastUsedAt := Some(at))
  {
    var r := UpdateCounter(passkeys, c.id, counter, at);
    forall i | 0 <= i < |passkeys| && passkeys[i].id == c.id ensures passkeys[i] == c {
      DistinctKeysUnique(passkeys, PasskeyId, passkeys[i], c);
    }
    forall p ensures p in r <==> (p in passkeys && p != c) || p == c.(counter := counter, lastUsedAt := Some(at)) {
      if p in r {
        var i :| 0 <= i < |r| && r[i] == p;
      }
      if p in passkeys && p != c {
        var i :| 0 <= i < |passkeys| && passkeys[i] == p;
        assert r[i] == p;
      }
      if p == c.(counter := counter, lastUsedAt := Some(at)) {
        var i :| 0 <= i < |passkeys| && passkeys[i] == c;
        assert r[i] == p;
      }
    }
    forall x | x in r ensures HasUser(users, x.userId) {
      var i :| 0 <= i < |r| && r[i] == x;
      assert passkeys[i] in passkeys;
    }
  }

  datatype AuthenticationOutcome = Authenticated(userId: string) | NotAuthenticated

  /** No matching credential throws before the verifier is called; a thrown verdict becomes a
      generic error; a verified verdict stores the verifier's `newCounter` and the time on
      the matched row and yields that row's owner. */
  method VerifyAuthentication(db: Database, response: AuthenticationResponse, expectedChallenge: string,
                              verifier: AuthenticationVerifier, now: int)
    returns (r: Result<AuthenticationOutcome>)
    requires db.Valid()
    modifies db
    ensures db.Valid()
    ensures LookupCredential(old(db.passkeys), response).None? ==>
              r == Err("Credential not found") && db.passkeys == old(db.passkeys)
    ensures LookupCredential(old(db.passkeys), response).Some? ==>
              var c := LookupCredential(old(db.passkeys), response).value;
              match verifier(AuthenticationCallFor(response, expectedChallenge, c))
              case AuthenticationThrew(_) =>
                r == Err("Failed to verify authentication") && db.passkeys == old(db.passkeys)
              case AuthenticationReturned(verified, newCounter) =>
                if verified then
                  r == Ok(Authenticated(c.userId))
                  && db.passkeys == UpdateCounter(old(db.passkeys), c.id, newCounter, Text.SqliteDateTime(now))
                else r == Ok(NotAuthenticated) && db.passkeys == old(db.passkeys)
    ensures db.users == old(db.users) && db.sessions == old(db.sessions)
    ensures db.vault == old(db.vault) && db.vaultSequence == old(db.vaultSequence)
  {
    var credential := LookupCredential(db.passkeys, response);
    if credential.None? {
      return Err("Credential not found");
    }
    var c := credential.value;
    var verdict := verifier(AuthenticationCallFor(response, expectedChallenge, c));
    if verdict.AuthenticationThrew? {
      return Err("Failed to verify authentication");
    }
    if verdict.verified {
      UpdateCounterKeepsTable(db.passkeys, db.users, c, verdict.newCounter, Text.SqliteDateTime(now));
      db.passkeys := UpdateCounter(db.passkeys, c.id, verdict.newCounter, Text.SqliteDateTime(now));
      return Ok(Authenticated(c.userId));
    }
    r := Ok(NotAuthenticated);
  }

  /** The columns getUserPasskeys selects: no credential id and no key. */
  datatype PasskeySummary = PasskeySummary(id: string, name: string, createdAt: string, lastUsedAt: Option<string>)

  function Summary(p: PasskeyRow): PasskeySummary {
    PasskeySummary(p.id, p.name, p.createdAt, p.lastUsedAt)
  }

  function SummaryCreatedAt(s: PasskeySummary): string { s.createdAt }

  function OwnedBy(userId: string): PasskeyRow -> bool {
    (p: PasskeyRow) => p.userId == userId
  }

  function Summaries(rows: seq<PasskeyRow>): (r: seq<PasskeySummary>)
    ensures |r| == |rows|
    ensures forall i :: 0 <= i < |r| ==> r[i] == Summary(rows[i])
  {
    seq(|rows|, i requires 0 <= i < |rows| => Summary(rows[i]))
  }

  /** The owner's passkeys, newest `created_at` first (compared as text). */
  function GetUserPasskeys(passkeys: seq<PasskeyRow>, userId: string): (r: seq<PasskeySummary>)
    ensures SortedDesc(r, SummaryCreatedAt)
    ensures |r| == |Filter(passkeys, OwnedBy(userId))|
    ensures forall s :: s in r <==> exists p :: p in passkeys && p.userId == userId && s == Summary(p)
  {
    var owned := Filter(passkeys, OwnedBy(userId));
    var r := SortDesc(Summaries(owned), SummaryCreatedAt);
    assert |r| == |multiset(r)| == |multiset(Summaries(owned))| == |owned|;
    assert forall s :: s in r <==> s in Summaries(owned) by {
      forall s ensures s in r <==> s in Summaries(owned) {
        assert s in r <==> s in multiset(r);
      }
    }
    assert forall s :: s in Summaries(owned) ==> exists p :: p in owned && s == Summary(p) by {
      forall s | s in Summaries(owned) ensures exists p :: p in owned && s == Summary(p) {
        var i :| 0 <= i < |owned| && Summaries(owned)[i] == s;
        assert owned[i] in owned;
      }
    }
    assert forall p :: p in owned ==> Summary(p) in Summaries(owned) by {
      forall p | p in owned ensures Summary(p) in Summaries(owned) {
        var i :| 0 <= i < |owned| && owned[i] == p;
        assert Summaries(owned)[i] == Summary(p);
      }
    }
    r
  }

  /** The rows deletePasskey keeps: all but the one with this id and this owner. */
  function KeptBy(passkeyId: string, userId: string): PasskeyRow -> bool {
    (p: PasskeyRow) => !(p.id == passkeyId && p.userId == userId)
  }

  /** Removes the row only when both its id and its owner match, and reports whether a row went. */
  method DeletePasskey(db: Database, passkeyId: string, userId: string) returns (removed: bool)
    requires db.Valid()
    modifies db
    ensures db.Valid()
    ensures removed <==> exists p :: p in old(db.passkeys) && p.id == passkeyId && p.userId == userId
    ensures db.passkeys == Filter(old(db.passkeys), KeptBy(passkeyId, userId))
    ensures forall p :: p in db.passkeys <==> p in old(db.passkeys) && !(p.id == passkeyId && p.userId == userId)
    ensures db.users == old(db.users) && db.sessions == old(db.sessions)
    ensures db.vault == old(db.vault) && db.vaultSequence == old(db.vaultSequence)
  {
    var kept := Filter(db.passkeys, KeptBy(passkeyId, userId));
    FilterShrinks(db.passkeys, KeptBy(passkeyId, userId));
    FilterKeepsDistinct(db.passkeys, KeptBy(passkeyId, userId), PasskeyId);
    FilterKeepsDistinct(db.passkeys, KeptBy(passkeyId, userId), CredentialId);
    removed := |kept| < |db.passkeys|;
    db.passkeys := kept;
  }
}

/** `/api/passwords`: the vault of saved credentials. Each entry belongs to the user who
    saved it; listing shows only one's own entries, and editing demands ownership. */
module PasswordsApi {
  import opened Wrappers
  import opened Seqs
  import opened Db
  import opened Http
  import Text

  function OwnedEntry(userId: string): VaultRow -> bool {
    (r: VaultRow) => r.userId == userId
  }

  function UpdatedAt(r: VaultRow): string { r.updatedAt }

  /** `username || null`: an absent or empty username is stored as NULL. */
  function Nullable(s: Option<string>): (r: Option<string>)
    ensures r.Some? <==> Present(s)
    ensures r.Some? ==> r == s
  {
    if Present(s) then s else None
  }

  /** `GET`: signed out, an empty list; signed in, exactly the user's entries, most recently
      updated first. */
  function Get(vault: seq<VaultRow>, user: Option<SessionUser>): (r: Reply<seq<VaultRow>>)
    ensures r.Json? && r.status == 200
    ensures user.None? ==> r.body == []
    ensures user.Some? ==> SortedDesc(r.body, UpdatedAt)
    ensures user.Some? ==> multiset(r.body) == multiset(Filter(vault, OwnedEntry(user.value.id)))
    ensures user.Some? ==> forall v :: v in r.body <==> v in vault && v.userId == user.value.id
  {
    match user
    case None => Json(200, [])
    case Some(u) =>
      var listed := SortDesc(Filter(vault, OwnedEntry(u.id)), UpdatedAt);
      assert forall v :: v in listed <==> v in multiset(listed);
      Json(200, listed)
  }

  /** `POST`: a new entry for the signed-in user, with the next AUTOINCREMENT id and both
      timestamps set to `datetime('now')`. The reply body is the new id. */
  method Post(db: Database, user: Option<SessionUser>, password: Option<string>, title: Option<string>,
              username: Option<string>, now: int)
    returns (reply: Reply<int>)
    requires db.Valid()
    modifies db
    ensures db.Valid()
    ensures user.None? ==> reply == JsonError(401, "Unauthorized")
    ensures user.Some? && (!Present(password) || !Present(title)) ==> reply == JsonError(400, "Missing required fields")
    ensures user.Some? && Present(password) && Present(title) && !HasUser(old(db.users), user.value.id) ==>
              reply == JsonError(500, "FOREIGN KEY constraint failed")
    ensures reply.Json? <==> user.Some? && Present(password) && Present(title) && HasUser(old(db.users), user.value.id)
    ensures reply.Json? ==>
              && reply == Json(200, old(db.vaultSequence) + 1)
              && db.vaultSequence == old(db.vaultSequence) + 1
              && db.vault == old(db.vault) + [VaultRow(reply.body, user.value.id, title, Nullable(username), password.value,
                                                      Text.SqliteDateTime(now), Text.SqliteDateTime(now))]
    ensures reply.Json? ==> forall r :: r in old(db.vault) ==> r.id < reply.body
    ensures !reply.Json? ==> db.vault == old(db.vault) && db.vaultSequence == old(db.vaultSequence)
    ensures db.users == old(db.users) && db.sessions == old(db.sessions) && db.passkeys == old(db.passkeys)
  {
    if user.None? {
      return JsonError(401, "Unauthorized");
    }
    if !Present(password) || !Present(title) {
      return JsonError(400, "Missing required fields");
    }
    if !HasUser(db.users, user.value.id) {
      return JsonError(500, "FOREIGN KEY constraint failed");
    }
    var id := db.vaultSequence + 1;
    var stamp := Text.SqliteDateTime(now);
    var row := VaultRow(id, user.value.id, title, Nullable(username), password.value, stamp, stamp);
    db.InsertVaultRow(row);
    reply := Json(200, id);
  }

  /** The columns `PUT` rewrites; id, owner and creation time stay. */
  function Edited(r: VaultRow, password: string, title: Option<string>, username: Option<string>, at: string): (e: VaultRow)
    ensures e.id == r.id && e.userId == r.userId && e.createdAt == r.createdAt
  {
    r.(password := password, title := title, username := Nullable(username), updatedAt := at)
  }

  /** `UPDATE passwords SET ... WHERE id = ?`. */
  function UpdateVault(vault: seq<VaultRow>, id: int, password: string, title: Option<string>, username: Option<string>, at: string)
    : (r: seq<VaultRow>)
    ensures |r| == |vault|
    ensures forall i :: 0 <= i < |r| ==> r[i] == if vault[i].id == id then Edited(vault[i], password, title, username, at) else vault[i]
  {
    seq(|vault|, i requires 0 <= i < |vault| => if vault[i].id == id then Edited(vault[i], password, title, username, at) else vault[i])
  }

  /** An edit keeps the table's keys and owners, so the vault stays well formed; afterwards
      the table holds the entries with other ids as they were and, in place of the entry
      with this id, its edit. */
  lemma UpdateVaultKeepsKeys(vault: seq<VaultRow>, users: seq<UserRow>, sequence: int, id: int, password: string,
                             title: Option<string>, username: Option<string>, at: string)
    requires VaultOk(vault, users, sequence)
    ensures VaultOk(UpdateVault(vault, id, password, title, username, at), users, sequence)
    ensures forall v :: v in UpdateVault(vault, id, password, title, username, at) <==>
              (v in vault && v.id != id) || exists e :: e in vault && e.id == id && v == Edited(e, password, title, username, at)
  {
    var r := UpdateVault(vault, id, password, title, username, at);
    forall v ensures v in r <==> (v in vault && v.id != id) || exists e :: e in vault && e.id == id && v == Edited(e, password, title, username, at) {
      if v in r {
        var i :| 0 <= i < |r| && r[i] == v;
        assert vault[i] in vault;
      }
      if v in vault && v.id != id {
        var i :| 0 <= i < |vault| && vault[i] == v;
        assert r[i] == v;
      }
      if e :| e in vault && e.id == id && v == Edited(e, password, title, username, at) {
        var i :| 0 <= i < |vault| && vault[i] == e;
        assert r[i] == v;
      }
    }
    forall i, j | 0 <= i < j < |r| ensures VaultId(r[i]) != VaultId(r[j]) {
      assert VaultId(vault[i]) != VaultId(vault[j]);
    }
    forall x | x in r ensures 0 < x.id <= sequence && HasUser(users, x.userId) {
      var i :| 0 <= i < |r| && r[i] == x;
      assert vault[i] in vault;
    }
  }

  /** `PUT`: only the owner of entry `id` may rewrite it; a missing password makes the
      NOT NULL constraint throw, which nothing catches. */
  method Put(db: Database, user: Option<SessionUser>, id: int, password: Option<string>, title: Option<string>,
             username: Option<string>, now: int)
    returns (reply: Reply<()>)
    requires db.Valid()
    modifies db
    ensures db.Valid()
    ensures user.None? ==> reply == JsonError(401, "Unauthorized")
    ensures user.Some? ==>
              (reply == JsonError(403, "Forbidden") <==> !exists r :: r in old(db.vault) && r.id == id && r.userId == user.value.id)
    ensures user.Some? && password.None? && (exists r :: r in old(db.vault) && r.id == id && r.userId == user.value.id) ==>
              reply == Thrown("NOT NULL constraint failed: passwords.password")
    ensures reply == Json(200, ()) <==>
              user.Some? && password.Some? && exists r :: r in old(db.vault) && r.id == id && r.userId == user.value.id
    ensures reply == Json(200, ()) ==>
              db.vault == UpdateVault(old(db.vault), id, password.value, title, username, Text.SqliteDateTime(now))
    ensures reply != Json(200, ()) ==> db.vault == old(db.vault)
    ensures db.vaultSequence == old(db.vaultSequence)
    ensures db.users == old(db.users) && db.sessions == old(db.sessions) && db.passkeys == old(db.passkeys)
  {
    if user.None? {
      return JsonError(401, "Unauthorized");
    }
    var record := FindFirst(db.vault, (r: VaultRow) => r.id == id);
    if record.None? {
      return JsonError(403, "Forbidden");
    }
    if record.value.userId != user.value.id {
      // `passwords.id` is the primary key: the row found is the only one with this id.
      forall r | r in db.vault && r.id == id ensures r.userId != user.value.id {
        DistinctKeysUnique(db.vault, VaultId, r, record.value);
      }
      return JsonError(403, "Forbidden");
    }
    if password.None? {
      return Thrown("NOT NULL constraint failed: passwords.password");
    }
    UpdateVaultKeepsKeys(db.vault, db.users, db.vaultSequence, id, password.value, title, username, Text.SqliteDateTime(now));
    db.vault := UpdateVault(db.vault, id, password.value, title, username, Text.SqliteDateTime(now));
    reply := Json(200, ());
  }

  /** After an edit the owner's listing shows the rewritten entry and no longer the old one
      (unless the edit changed nothing). */
  lemma EditShowsInListing(vault: seq<VaultRow>, user: SessionUser, r: VaultRow, password: string,
                           title: Option<string>, username: Option<string>, at: string)
    requires r in vault && r.userId == user.id
    ensures Edited(r, password, title, username, at) in Get(UpdateVault(vault, r.id, password, title, username, at), Some(user)).body
  {
    var i :| 0 <= i < |vault| && vault[i] == r;
    var after := UpdateVault(vault, r.id, password, title, username, at);
    assert after[i] == Edited(r, password, title, username, at);
    assert after[i] in after;
  }

  /** Another user's entries are never listed, before or after any edit. */
  lemma ListingIsPrivate(vault: seq<VaultRow>, user: SessionUser, v: VaultRow)
    requires v.userId != user.id
    ensures v !in Get(vault, Some(user)).body
  {
  }
}

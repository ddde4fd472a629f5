/** The SQLite database as the core uses it: four tables held as rows in rowid order
    (sessions keyed by their primary key), the schema's UNIQUE and FOREIGN KEY
    constraints as the database's invariant, and the errors an INSERT raises when a
    constraint would break. Users are never deleted by the core, so ON DELETE CASCADE
    never fires. */
module Db {
  import opened Wrappers
  import opened Seqs
  import Text
  import Bcrypt

  datatype UserRow = UserRow(
    id: string,
    username: string,
    passwordHash: Bcrypt.Hash,
    twoFactorSecret: Option<string>,
    twoFactorEnabled: int)

  datatype SessionRow = SessionRow(id: string, userId: string, expiresAt: string)

  datatype PasskeyRow = PasskeyRow(
    id: string,
    userId: string,
    name: string,
    credentialId: string,
    publicKey: string,
    counter: nat,
    createdAt: string,
    lastUsedAt: Option<string>)

  /** A row of the `passwords` table (the vault). */
  datatype VaultRow = VaultRow(
    id: int,
    userId: string,
    title: Option<string>,
    username: Option<string>,
    password: string,
    createdAt: string,
    updatedAt: string)

  function UserId(u: UserRow): string { u.id }
  function Username(u: UserRow): string { u.username }
  function PasskeyId(r: PasskeyRow): string { r.id }
  function CredentialId(r: PasskeyRow): string { r.credentialId }
  function VaultId(r: VaultRow): int { r.id }

  predicate HasUser(users: seq<UserRow>, id: string) {
    exists u :: u in users && u.id == id
  }

  predicate HasUsername(users: seq<UserRow>, username: string) {
    exists u :: u in users && u.username == username
  }

  /** users.id PRIMARY KEY and users.username UNIQUE. */
  ghost predicate UsersOk(users: seq<UserRow>) {
    DistinctKeys(users, UserId) && DistinctKeys(users, Username)
  }

  /** sessions.id PRIMARY KEY (the map key) and sessions.user_id REFERENCES users(id). */
  ghost predicate SessionsOk(sessions: map<string, SessionRow>, users: seq<UserRow>) {
    forall k :: k in sessions ==> sessions[k].id == k && HasUser(users, sessions[k].userId)
  }

  /** passkey_credentials.id PRIMARY KEY, credential_id UNIQUE, user_id REFERENCES users(id). */
  ghost predicate PasskeysOk(passkeys: seq<PasskeyRow>, users: seq<UserRow>) {
    && DistinctKeys(passkeys, PasskeyId)
    && DistinctKeys(passkeys, CredentialId)
    && forall r :: r in passkeys ==> HasUser(users, r.userId)
  }

  /** passwords.id INTEGER PRIMARY KEY AUTOINCREMENT (never above the sequence counter)
      and passwords.user_id REFERENCES users(id). */
  ghost predicate VaultOk(vault: seq<VaultRow>, users: seq<UserRow>, sequence: int) {
    && 0 <= sequence
    && DistinctKeys(vault, VaultId)
    && forall r :: r in vault ==> 0 < r.id <= sequence && HasUser(users, r.userId)
  }

  /** The text SQLite puts at the head of every uniqueness violation message. */
  const UniqueFailed: string := "UNIQUE constraint failed"

  lemma MessageIncludesHead(tail: string)
    ensures Text.Includes(UniqueFailed + tail, UniqueFailed)
  {
    assert UniqueFailed <= UniqueFailed + tail;
  }

  /** The error message SQLite gives for inserting `row` into users, if any. */
  function UserInsertError(users: seq<UserRow>, row: UserRow): (e: Option<string>)
    ensures e.None? <==> !HasUser(users, row.id) && !HasUsername(users, row.username)
    ensures e.Some? ==> Text.Includes(e.value, "UNIQUE constraint failed")
  {
    if HasUser(users, row.id) then
      MessageIncludesHead(": users.id");
      Some(UniqueFailed + ": users.id")
    else if HasUsername(users, row.username) then
      MessageIncludesHead(": users.username");
      Some(UniqueFailed + ": users.username")
    else None
  }

  /** The error message SQLite gives for inserting `row` into sessions, if any. */
  function SessionInsertError(sessions: map<string, SessionRow>, users: seq<UserRow>, row: SessionRow): (e: Option<string>)
    ensures e.None? <==> row.id !in sessions && HasUser(users, row.userId)
  {
    if row.id in sessions then Some(UniqueFailed + ": sessions.id")
    else if !HasUser(users, row.userId) then Some("FOREIGN KEY constraint failed")
    else None
  }

  /** The error message SQLite gives for inserting `row` into passkey_credentials, if any. */
  function PasskeyInsertError(passkeys: seq<PasskeyRow>, users: seq<UserRow>, row: PasskeyRow): (e: Option<string>)
    ensures e.None? <==> (forall r :: r in passkeys ==> r.id != row.id && r.credentialId != row.credentialId) && HasUser(users, row.userId)
  {
    if exists r :: r in passkeys && r.id == row.id then Some(UniqueFailed + ": passkey_credentials.id")
    else if exists r :: r in passkeys && r.credentialId == row.credentialId then Some(UniqueFailed + ": passkey_credentials.credential_id")
    else if !HasUser(users, row.userId) then Some("FOREIGN KEY constraint failed")
    else None
  }

  /** The column updates the core makes to one user row. */
  datatype UserUpdate =
    | SetPasswordHash(hash: Bcrypt.Hash)
    | SetTwoFactorSecret(secret: string)
    | SetTwoFactorEnabled
    | ClearTwoFactor

  function Updated(u: UserRow, change: UserUpdate): (v: UserRow)
    ensures v.id == u.id && v.username == u.username
  {
    match change
    case SetPasswordHash(h) => u.(passwordHash := h)
    case SetTwoFactorSecret(s) => u.(twoFactorSecret := Some(s))
    case SetTwoFactorEnabled => u.(twoFactorEnabled := 1)
    case ClearTwoFactor => u.(twoFactorEnabled := 0, twoFactorSecret := None)
  }

  /** `UPDATE users SET ... WHERE id = ?`: every row with that id changes, no other row does. */
  function UpdateUsers(users: seq<UserRow>, id: string, change: UserUpdate): (r: seq<UserRow>)
    ensures |r| == |users|
    ensures forall i :: 0 <= i < |r| ==> r[i] == if users[i].id == id then Updated(users[i], change) else users[i]
  {
    seq(|users|, i requires 0 <= i < |users| => if users[i].id == id then Updated(users[i], change) else users[i])
  }

  /** An update of user columns other than the keys keeps the constraints and the set of ids. */
  lemma UpdateUsersKeepsKeys(users: seq<UserRow>, id: string, change: UserUpdate)
    requires UsersOk(users)
    ensures UsersOk(UpdateUsers(users, id, change))
    ensures forall x :: HasUser(UpdateUsers(users, id, change), x) <==> HasUser(users, x)
  {
    var r := UpdateUsers(users, id, change);
    forall x ensures HasUser(r, x) <==> HasUser(users, x) {
      if HasUser(r, x) {
        var u :| u in r && u.id == x;
        var i :| 0 <= i < |r| && r[i] == u;
        assert users[i].id == x;
      }
      if HasUser(users, x) {
        var u :| u in users && u.id == x;
        var i :| 0 <= i < |users| && users[i] == u;
        assert r[i].id == x;
      }
    }
  }

  /** After the update the table holds the rows with other ids as they were and, in place
      of each row with this id, its update; nothing else. */
  lemma UpdateUsersRows(users: seq<UserRow>, id: string, change: UserUpdate, v: UserRow)
    ensures v in UpdateUsers(users, id, change) <==>
              (v in users && v.id != id) || exists u :: u in users && u.id == id && v == Updated(u, change)
  {
    var r := UpdateUsers(users, id, change);
    if v in r {
      var i :| 0 <= i < |r| && r[i] == v;
      assert users[i] in users;
    }
    if v in users && v.id != id {
      var i :| 0 <= i < |users| && users[i] == v;
      assert r[i] == v;
    }
    if u :| u in users && u.id == id && v == Updated(u, change) {
      var i :| 0 <= i < |users| && users[i] == u;
      assert r[i] == v;
    }
  }

  class Database {
    var users: seq<UserRow>
    var sessions: map<string, SessionRow>
    var passkeys: seq<PasskeyRow>
    var vault: seq<VaultRow>
    /** The sqlite_sequence entry of `passwords`: the largest id AUTOINCREMENT has handed out. */
    var vaultSequence: int

    ghost predicate Valid()
      reads this
    {
      && UsersOk(users)
      && SessionsOk(sessions, users)
      && PasskeysOk(passkeys, users)
      && VaultOk(vault, users, vaultSequence)
    }

    /** The freshly created database file. */
    constructor ()
      ensures Valid()
      ensures users == [] && sessions == map[] && passkeys == [] && vault == [] && vaultSequence == 0
    {
      users, sessions, passkeys, vault, vaultSequence := [], map[], [], [], 0;
    }

    /** Applies `UPDATE users ... WHERE id = ?`; every other table is untouched. */
    method UpdateUser(id: string, change: UserUpdate)
      requires Valid()
      modifies this
      ensures Valid()
      ensures users == UpdateUsers(old(users), id, change)
      ensures sessions == old(sessions) && passkeys == old(passkeys)
      ensures vault == old(vault) && vaultSequence == old(vaultSequence)
    {
      UpdateUsersKeepsKeys(users, id, change);
      users := UpdateUsers(users, id, change);
    }

    /** `INSERT INTO passwords` for an existing owner: the row takes the next AUTOINCREMENT id,
        above every id handed out before. */
    method InsertVaultRow(row: VaultRow)
      requires Valid()
      requires row.id == vaultSequence + 1 && HasUser(users, row.userId)
      modifies this
      ensures Valid()
      ensures vault == old(vault) + [row] && vaultSequence == row.id
      ensures forall r :: r in old(vault) ==> r.id < row.id
      ensures users == old(users) && sessions == old(sessions) && passkeys == old(passkeys)
    {
      AppendKeepsDistinct(vault, VaultId, row);
      vault := vault + [row];
      vaultSequence := row.id;
    }
  }
}

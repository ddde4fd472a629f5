/** The `Auth` object: users, sessions and the two-factor columns. Mutating operations are
    methods on the database; read-only lookups are functions of the tables they read. */
module Auth {
  import opened Wrappers
  import opened Seqs
  import opened Db
  import Text
  import Bcrypt

  /** `1000 * 60 * 60 * 24 * 7`: a session's lifetime in milliseconds. */
  const SessionTtlMs: int := 604800000

  /** otplib's `authenticator.check(token, secret)` at the current time step; the token is
      None when the form field is missing (`null`). */
  type TotpCheck = (Option<string>, string) -> bool

  datatype NewUser = NewUser(id: string, username: string)

  datatype VerifiedUser = VerifiedUser(id: string, username: string, twoFactorEnabled: bool)

  /** The row `getSession` returns: the session's columns joined with the owner's. */
  datatype SessionView = SessionView(id: string, userId: string, expiresAt: string, username: string, twoFactorEnabled: bool)

  /** `SELECT ... FROM users WHERE username = ?`. */
  function UserByUsername(users: seq<UserRow>, username: string): (r: Option<UserRow>)
    ensures r.Some? ==> r.value in users && r.value.username == username
    ensures r.None? <==> !HasUsername(users, username)
  {
    FindFirst(users, (u: UserRow) => u.username == username)
  }

  /** `SELECT ... FROM users WHERE id = ?`. */
  function UserById(users: seq<UserRow>, id: string): (r: Option<UserRow>)
    ensures r.Some? ==> r.value in users && r.value.id == id
    ensures r.None? <==> !HasUser(users, id)
    ensures DistinctKeys(users, UserId) ==> forall u :: u in users && u.id == id ==> r == Some(u)
  {
    match FindFirst(users, (u: UserRow) => u.id == id)
    case None => None
    case Some(v) =>
      PrimaryKeyRow(users, v);
      Some(v)
  }

  /** Under the primary key, the row found for an id is the only row with that id. */
  lemma PrimaryKeyRow(users: seq<UserRow>, v: UserRow)
    requires v in users
    ensures DistinctKeys(users, UserId) ==> forall u :: u in users && u.id == v.id ==> u == v
  {
    if DistinctKeys(users, UserId) {
      forall u | u in users && u.id == v.id ensures u == v {
        DistinctKeysUnique(users, UserId, u, v);
      }
    }
  }

  /** The uuid is the parameter `id`. Any uniqueness failure, on the id as well as on the
      name, is reported as a taken username. */
  method CreateUser(db: Database, username: string, password: string, id: string) returns (r: Result<NewUser>)
    requires db.Valid()
    modifies db
    ensures db.Valid()
    ensures r.Ok? <==> !HasUser(old(db.users), id) && !HasUsername(old(db.users), username)
    ensures r.Ok? ==> r.value == NewUser(id, username)
    ensures r.Ok? ==> db.users == old(db.users) + [UserRow(id, username, Bcrypt.HashPassword(password), None, 0)]
    ensures r.Err? ==> r.message == "Username already exists" && db.users == old(db.users)
    ensures db.sessions == old(db.sessions) && db.passkeys == old(db.passkeys)
    ensures db.vault == old(db.vault) && db.vaultSequence == old(db.vaultSequence)
  {
    var row := UserRow(id, username, Bcrypt.HashPassword(password), None, 0);
    var e := UserInsertError(db.users, row);
    if e.Some? {
      var message := e.value;
      return Err(if Text.Includes(message, UniqueFailed) then "Username already exists" else message);
    }
    AppendKeepsDistinct(db.users, UserId, row);
    AppendKeepsDistinct(db.users, Username, row);
    db.users := db.users + [row];
    r := Ok(NewUser(id, username));
  }

  function VerifyUser(users: seq<UserRow>, username: string, password: string): (r: Option<VerifiedUser>)
    ensures !HasUsername(users, username) ==> r.None?
    ensures r.Some? ==> exists u :: u in users && u.username == username && Bcrypt.Compare(password, u.passwordHash)
                          && r.value == VerifiedUser(u.id, username, u.twoFactorEnabled == 1)
  {
    match UserByUsername(users, username)
    case None => None
    case Some(u) =>
      if Bcrypt.Compare(password, u.passwordHash) then Some(VerifiedUser(u.id, u.username, u.twoFactorEnabled == 1))
      else None
  }

  /** Under the UNIQUE username constraint, verifyUser succeeds exactly when the named
      user exists and the password matches its hash; an unknown name and a wrong password
      give the same None. */
  lemma VerifyUserExact(users: seq<UserRow>, username: string, password: string)
    requires UsersOk(users)
    ensures VerifyUser(users, username, password).Some? <==>
              exists u :: u in users && u.username == username && Bcrypt.Compare(password, u.passwordHash)
  {
    if u :| u in users && u.username == username && Bcrypt.Compare(password, u.passwordHash) {
      var f := UserByUsername(users, username);
      DistinctKeysUnique(users, Username, u, f.value);
    }
  }

  /** A user created with a fresh name verifies with exactly the password it was created with. */
  lemma CreatedUserVerifies(users: seq<UserRow>, id: string, username: string, password: string, candidate: string)
    requires UsersOk(users) && !HasUsername(users, username)
    ensures var created := users + [UserRow(id, username, Bcrypt.HashPassword(password), None, 0)];
            VerifyUser(created, username, candidate) ==
              if candidate == password then Some(VerifiedUser(id, username, false)) else None
  {
    var row := UserRow(id, username, Bcrypt.HashPassword(password), None, 0);
    var created := users + [row];
    AppendKeepsDistinct(users, Username, row);
    var f := UserByUsername(created, username);
    assert row in created;
    DistinctKeysUnique(created, Username, row, f.value);
  }

  /** The uuid is the parameter `id` and `Date.now()` is `now`. No error is caught: a
      primary-key or foreign-key failure propagates. */
  method CreateSession(db: Database, userId: string, id: string, now: int) returns (r: Result<string>)
    requires db.Valid()
    modifies db
    ensures db.Valid()
    ensures r.Ok? <==> id !in old(db.sessions) && HasUser(old(db.users), userId)
    ensures r.Ok? ==> r.value == id && db.sessions == old(db.sessions)[id := SessionRow(id, userId, Text.IsoString(now + SessionTtlMs))]
    ensures r.Err? ==> db.sessions == old(db.sessions)
    ensures db.users == old(db.users) && db.passkeys == old(db.passkeys)
    ensures db.vault == old(db.vault) && db.vaultSequence == old(db.vaultSequence)
  {
    var row := SessionRow(id, userId, Text.IsoString(now + SessionTtlMs));
    var e := SessionInsertError(db.sessions, db.users, row);
    if e.Some? {
      return Err(e.value);
    }
    db.sessions := db.sessions[id := row];
    r := Ok(id);
  }

  /** `expires_at > datetime('now')`, compared as text. */
  predicate Live(expiresAt: string, now: int) {
    Text.Less(Text.SqliteDateTime(now), expiresAt)
  }

  /** The join of one session row with its owner, if the owner exists. */
  function JoinOwner(s: SessionRow, users: seq<UserRow>): (r: Option<SessionView>)
    ensures r.Some? <==> HasUser(users, s.userId)
    ensures r.Some? ==> r.value.id == s.id && r.value.userId == s.userId && r.value.expiresAt == s.expiresAt
                          && exists u :: u in users && u.id == s.userId && u.username == r.value.username
                                         && r.value.twoFactorEnabled == (u.twoFactorEnabled == 1)
  {
    match UserById(users, s.userId)
    case None => None
    case Some(u) => Some(SessionView(s.id, s.userId, s.expiresAt, u.username, u.twoFactorEnabled == 1))
  }

  function GetSession(sessions: map<string, SessionRow>, users: seq<UserRow>, sessionId: string, now: int): (r: Option<SessionView>)
    ensures r.Some? <==> sessionId in sessions && Live(sessions[sessionId].expiresAt, now) && HasUser(users, sessions[sessionId].userId)
    ensures r.Some? ==> r == JoinOwner(sessions[sessionId], users)
  {
    if sessionId in sessions && Live(sessions[sessionId].expiresAt, now) then JoinOwner(sessions[sessionId], users)
    else None
  }

  /** A session stored by createSession (an ISO text) compared with SQLite's text clock is
      live exactly while the current UTC date is not past the expiry's UTC date: it stays
      valid until the end of its expiry day, not until its expiry instant. */
  lemma LiveUntilEndOfExpiryDay(expiry: int, now: int)
    ensures Live(Text.IsoString(expiry), now) <==>
              Text.DatePart(now) == Text.DatePart(expiry) || Text.Less(Text.DatePart(now), Text.DatePart(expiry))
  {
    var iso := Text.IsoString(expiry);
    var sql := Text.SqliteDateTime(now);
    assert iso == Text.DatePart(expiry) + "T" + iso[11..];
    assert sql == Text.DatePart(now) + " " + sql[11..];
    Text.SeparatorDecides(Text.DatePart(now), sql[11..], Text.DatePart(expiry), iso[11..]);
  }

  /** The session is still accepted after its expiry instant, for the rest of that UTC day. */
  lemma LiveAfterExpiryInstant(expiry: int, now: int)
    requires expiry <= now && now / Text.DayMs == expiry / Text.DayMs
    ensures Live(Text.IsoString(expiry), now)
  {
    LiveUntilEndOfExpiryDay(expiry, now);
  }

  method DeleteSession(db: Database, sessionId: string)
    requires db.Valid()
    modifies db
    ensures db.Valid()
    ensures db.sessions == old(db.sessions) - {sessionId}
    ensures db.users == old(db.users) && db.passkeys == old(db.passkeys)
    ensures db.vault == old(db.vault) && db.vaultSequence == old(db.vaultSequence)
  {
    db.sessions := db.sessions - {sessionId};
  }

  /** `generateSecret()` is the parameter `secret`; the secret is stored and returned, and
      `two_factor_enabled` keeps its value. */
  method Create2FASecret(db: Database, userId: string, secret: string) returns (s: string)
    requires db.Valid()
    modifies db
    ensures db.Valid()
    ensures s == secret
    ensures db.users == UpdateUsers(old(db.users), userId, SetTwoFactorSecret(secret))
    ensures forall i :: 0 <= i < |db.users| ==> db.users[i].twoFactorEnabled == old(db.users)[i].twoFactorEnabled
    ensures db.sessions == old(db.sessions) && db.passkeys == old(db.passkeys)
    ensures db.vault == old(db.vault) && db.vaultSequence == old(db.vaultSequence)
  {
    db.UpdateUser(userId, SetTwoFactorSecret(secret));
    s := secret;
  }

  /** `SELECT two_factor_secret FROM users WHERE id = ?`, when the row exists and the secret is truthy. */
  function TwoFactorSecret(users: seq<UserRow>, userId: string): (s: Option<string>)
    ensures s.Some? ==> s.value != "" && exists u :: u in users && u.id == userId && u.twoFactorSecret == Some(s.value)
    ensures !HasUser(users, userId) ==> s.None?
    ensures UsersOk(users) ==> forall u :: u in users && u.id == userId ==>
              (s.Some? <==> Present(u.twoFactorSecret)) && (s.Some? ==> s == u.twoFactorSecret)
  {
    match UserById(users, userId)
    case None => None
    case Some(u) => if Present(u.twoFactorSecret) then u.twoFactorSecret else None
  }

  function Validate2FA(users: seq<UserRow>, userId: string, token: Option<string>, check: TotpCheck): (valid: bool)
    ensures !HasUser(users, userId) ==> !valid
    ensures valid ==> exists u :: u in users && u.id == userId && u.twoFactorSecret.Some?
                                  && u.twoFactorSecret.value != "" && check(token, u.twoFactorSecret.value)
    ensures UsersOk(users) ==> forall u :: u in users && u.id == userId ==>
              (valid <==> Present(u.twoFactorSecret) && check(token, u.twoFactorSecret.value))
  {
    match TwoFactorSecret(users, userId)
    case None => false
    case Some(s) => check(token, s)
  }

  /** Throws when setup was not initiated; otherwise enables 2FA exactly when the code is
      one validate2FA accepts, and changes nothing when it is not. */
  method Enable2FA(db: Database, userId: string, token: Option<string>, check: TotpCheck) returns (r: Result<bool>)
    requires db.Valid()
    modifies db
    ensures db.Valid()
    ensures r.Err? <==> TwoFactorSecret(old(db.users), userId).None?
    ensures r.Err? ==> r.message == "2FA Setup not initiated"
    ensures r.Ok? ==> r.value == Validate2FA(old(db.users), userId, token, check)
    ensures db.users == if r == Ok(true) then UpdateUsers(old(db.users), userId, SetTwoFactorEnabled) else old(db.users)
    ensures db.sessions == old(db.sessions) && db.passkeys == old(db.passkeys)
    ensures db.vault == old(db.vault) && db.vaultSequence == old(db.vaultSequence)
  {
    var secret := TwoFactorSecret(db.users, userId);
    if secret.None? {
      return Err("2FA Setup not initiated");
    }
    var isValid := check(token, secret.value);
    if !isValid {
      return Ok(false);
    }
    db.UpdateUser(userId, SetTwoFactorEnabled);
    r := Ok(true);
  }

  /** Clears the flag and the secret in one update. */
  method Disable2FA(db: Database, userId: string)
    requires db.Valid()
    modifies db
    ensures db.Valid()
    ensures db.users == UpdateUsers(old(db.users), userId, ClearTwoFactor)
    ensures db.sessions == old(db.sessions) && db.passkeys == old(db.passkeys)
    ensures db.vault == old(db.vault) && db.vaultSequence == old(db.vaultSequence)
  {
    db.UpdateUser(userId, ClearTwoFactor);
  }

  function Get2FAStatus(users: seq<UserRow>, userId: string): (enabled: bool)
    ensures !HasUser(users, userId) ==> !enabled
    ensures enabled ==> exists u :: u in users && u.id == userId && u.twoFactorEnabled == 1
    ensures UsersOk(users) ==> forall u :: u in users && u.id == userId ==> (enabled <==> u.twoFactorEnabled == 1)
  {
    match UserById(users, userId)
    case None => false
    case Some(u) => u.twoFactorEnabled == 1
  }

  /** After enable2FA's update the status reads enabled. */
  lemma EnabledStatus(users: seq<UserRow>, userId: string)
    requires HasUser(users, userId)
    ensures Get2FAStatus(UpdateUsers(users, userId, SetTwoFactorEnabled), userId)
  {
    var after := UpdateUsers(users, userId, SetTwoFactorEnabled);
    var u :| u in users && u.id == userId;
    var i :| 0 <= i < |users| && users[i] == u;
    assert after[i].id == userId;
    var f := UserById(after, userId);
    var j :| 0 <= j < |after| && after[j] == f.value;
  }

  /** After disable2FA neither the status nor any code validates for that user. */
  lemma DisabledStatus(users: seq<UserRow>, userId: string, token: Option<string>, check: TotpCheck)
    ensures !Get2FAStatus(UpdateUsers(users, userId, ClearTwoFactor), userId)
    ensures !Validate2FA(UpdateUsers(users, userId, ClearTwoFactor), userId, token, check)
  {
    var after := UpdateUsers(users, userId, ClearTwoFactor);
    var f := UserById(after, userId);
    if f.Some? {
      var i :| 0 <= i < |after| && after[i] == f.value;
    }
  }

  /** Storing a new secret leaves the status as it was. */
  lemma SecretKeepsStatus(users: seq<UserRow>, userId: string, secret: string)
    requires UsersOk(users)
    ensures Get2FAStatus(UpdateUsers(users, userId, SetTwoFactorSecret(secret)), userId) == Get2FAStatus(users, userId)
  {
    var after := UpdateUsers(users, userId, SetTwoFactorSecret(secret));
    UpdateUsersKeepsKeys(users, userId, SetTwoFactorSecret(secret));
    var f, g := UserById(users, userId), UserById(after, userId);
    if g.Some? {
      var j :| 0 <= j < |after| && after[j] == g.value;
      assert users[j] in users && users[j].id == userId;
      DistinctKeysUnique(users, UserId, users[j], f.value);
    }
  }
}

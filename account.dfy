/** The `account` page: its `load` and the four form actions (change password, set up,
    confirm and turn off two-factor authentication). Every action first demands a signed-in
    `locals.user`. */
module AccountPage {
  import opened Wrappers
  import opened Db
  import opened Http
  import opened Regex
  import Auth
  import Bcrypt
  import Seqs

  const PasswordRule: string := "Password must be at least 8 chars, with 1 uppercase, 1 number, and 1 symbol."
  /** The TypeError raised by reading `password_hash` of the undefined row. */
  const MissingRowError: string := "Cannot read properties of undefined (reading 'password_hash')"

  /** The objects the page and its actions return. */
  datatype AccountData =
    | AccountView(user: SessionUser, is2FAEnabled: bool)
    | PasswordUpdated(passwordMessage: string)
    | TwoFactorSetup(secret: string, message: string)
    | TwoFactorEnabled(twoFactorMessage: string)
    | TwoFactorDisabled(twoFactorMessage: string)

  const Unauthorized: Reply<AccountData> := Fail(401, "error", "Unauthorized")

  /** Signed out: redirect to the login page. Signed in: the user and their 2FA status. */
  function Load(users: seq<UserRow>, user: Option<SessionUser>): (r: Reply<AccountData>)
    ensures user.None? <==> r == Redirect(302, "/login")
    ensures user.Some? ==> r.Data? && r.body.AccountView? && r.body.user == user.value
    ensures user.Some? && r.body.is2FAEnabled ==> exists u :: u in users && u.id == user.value.id && u.twoFactorEnabled == 1
    ensures user.Some? && UsersOk(users) ==>
              (r.body.is2FAEnabled <==> exists u :: u in users && u.id == user.value.id && u.twoFactorEnabled == 1)
  {
    match user
    case None => Redirect(302, "/login")
    case Some(u) => Data(AccountView(u, Auth.Get2FAStatus(users, u.id)))
  }

  /** The checks of `updatePassword` that need no database, in the handler's order. */
  function PasswordFormError(current: Option<string>, next: Option<string>, confirm: Option<string>): (e: Option<string>)
    ensures e.None? <==> Present(current) && Present(next) && Present(confirm) && next == confirm
                          && AccountPasswordPattern(next.value)
    ensures !Present(current) || !Present(next) || !Present(confirm) ==> e == Some("All fields are required")
    ensures Present(current) && Present(next) && Present(confirm) && next != confirm ==> e == Some("New passwords do not match")
    ensures e.Some? && next == confirm && Present(current) && Present(next) ==> e == Some(PasswordRule)
  {
    if !Present(current) || !Present(next) || !Present(confirm) then Some("All fields are required")
    else if next != confirm then Some("New passwords do not match")
    else if !AccountPasswordPattern(next.value) then Some(PasswordRule)
    else None
  }

  /** Replaces the signed-in user's hash only when the form is valid and the current password
      matches the stored hash; a signed-in user without a row makes the handler throw. */
  method UpdatePassword(db: Database, user: Option<SessionUser>, current: Option<string>, next: Option<string>, confirm: Option<string>)
    returns (reply: Reply<AccountData>)
    requires db.Valid()
    modifies db
    ensures db.Valid()
    ensures user.None? ==> reply == Unauthorized
    ensures user.Some? && PasswordFormError(current, next, confirm).Some? ==>
              reply == Fail(400, "error", PasswordFormError(current, next, confirm).value)
    ensures user.Some? && PasswordFormError(current, next, confirm).None? && !HasUser(old(db.users), user.value.id) ==>
              reply == Thrown(MissingRowError)
    ensures reply.Data? <==>
              && user.Some? && PasswordFormError(current, next, confirm).None?
              && exists u :: u in old(db.users) && u.id == user.value.id && Bcrypt.Compare(current.value, u.passwordHash)
    ensures reply.Data? ==> reply.body == PasswordUpdated("Password updated successfully")
    ensures !reply.Data? && user.Some? && PasswordFormError(current, next, confirm).None? && HasUser(old(db.users), user.value.id) ==>
              reply == Fail(400, "error", "Incorrect current password")
    ensures db.users == if reply.Data? then UpdateUsers(old(db.users), user.value.id, SetPasswordHash(Bcrypt.HashPassword(next.value)))
                        else old(db.users)
    ensures db.sessions == old(db.sessions) && db.passkeys == old(db.passkeys)
    ensures db.vault == old(db.vault) && db.vaultSequence == old(db.vaultSequence)
  {
    if user.None? {
      return Unauthorized;
    }
    var invalid := PasswordFormError(current, next, confirm);
    if invalid.Some? {
      return Fail(400, "error", invalid.value);
    }
    var row := Auth.UserById(db.users, user.value.id);
    if row.None? {
      return Thrown(MissingRowError);
    }
    if !Bcrypt.Compare(current.value, row.value.passwordHash) {
      // `users.id` is the primary key, so the first row with this id is the only one.
      forall u | u in db.users && u.id == user.value.id
        ensures !Bcrypt.Compare(current.value, u.passwordHash)
      {
        Seqs.DistinctKeysUnique(db.users, UserId, u, row.value);
      }
      return Fail(400, "error", "Incorrect current password");
    }
    db.UpdateUser(user.value.id, SetPasswordHash(Bcrypt.HashPassword(next.value)));
    reply := Data(PasswordUpdated("Password updated successfully"));
  }

  /** After the update the account signs in with the new password and with no other. */
  lemma PasswordChangeTakesEffect(users: seq<UserRow>, u: UserRow, newPassword: string, candidate: string)
    requires UsersOk(users) && u in users
    ensures Auth.VerifyUser(UpdateUsers(users, u.id, SetPasswordHash(Bcrypt.HashPassword(newPassword))), u.username, candidate).Some?
            <==> candidate == newPassword
  {
    var change := SetPasswordHash(Bcrypt.HashPassword(newPassword));
    var after := UpdateUsers(users, u.id, change);
    UpdateUsersKeepsKeys(users, u.id, change);
    Auth.VerifyUserExact(after, u.username, candidate);
    var i :| 0 <= i < |users| && users[i] == u;
    assert after[i] in after && after[i].username == u.username;
    if v :| v in after && v.username == u.username && Bcrypt.Compare(candidate, v.passwordHash) {
      Seqs.DistinctKeysUnique(after, Username, v, after[i]);
    }
  }

  /** Stores the secret the caller generated and hands it back for the authenticator app. */
  method Setup2FA(db: Database, user: Option<SessionUser>, secret: string) returns (reply: Reply<AccountData>)
    requires db.Valid()
    modifies db
    ensures db.Valid()
    ensures user.None? <==> reply == Unauthorized
    ensures user.None? ==> db.users == old(db.users)
    ensures user.Some? ==>
              reply == Data(TwoFactorSetup(secret, "Scan the QR code with your authenticator app"))
              && db.users == UpdateUsers(old(db.users), user.value.id, SetTwoFactorSecret(secret))
    ensures db.sessions == old(db.sessions) && db.passkeys == old(db.passkeys)
    ensures db.vault == old(db.vault) && db.vaultSequence == old(db.vaultSequence)
  {
    if user.None? {
      return Unauthorized;
    }
    var stored := Auth.Create2FASecret(db, user.value.id, secret);
    reply := Data(TwoFactorSetup(stored, "Scan the QR code with your authenticator app"));
  }

  /** Confirms setup with a code (`token` is None when the field is missing): the thrown
      "not initiated" error and a wrong code are both form failures under `error2fa`; only
      an accepted code turns 2FA on. */
  method Verify2FA(db: Database, user: Option<SessionUser>, token: Option<string>, check: Auth.TotpCheck) returns (reply: Reply<AccountData>)
    requires db.Valid()
    modifies db
    ensures db.Valid()
    ensures user.None? ==> reply == Unauthorized
    ensures user.Some? && Auth.TwoFactorSecret(old(db.users), user.value.id).None? ==>
              reply == Fail(400, "error2fa", "2FA Setup not initiated")
    ensures user.Some? && Auth.TwoFactorSecret(old(db.users), user.value.id).Some? ==>
              if Auth.Validate2FA(old(db.users), user.value.id, token, check)
              then reply == Data(TwoFactorEnabled("Two-Factor Authentication enabled successfully!"))
              else reply == Fail(400, "error2fa", "Invalid code. Please try again.")
    ensures db.users == if reply.Data? then UpdateUsers(old(db.users), user.value.id, SetTwoFactorEnabled) else old(db.users)
    ensures db.sessions == old(db.sessions) && db.passkeys == old(db.passkeys)
    ensures db.vault == old(db.vault) && db.vaultSequence == old(db.vaultSequence)
  {
    if user.None? {
      return Unauthorized;
    }
    var enabled := Auth.Enable2FA(db, user.value.id, token, check);
    match enabled
    case Err(message) =>
      reply := Fail(400, "error2fa", message);
    case Ok(success) =>
      if !success {
        reply := Fail(400, "error2fa", "Invalid code. Please try again.");
      } else {
        reply := Data(TwoFactorEnabled("Two-Factor Authentication enabled successfully!"));
      }
  }

  method Disable2FA(db: Database, user: Option<SessionUser>) returns (reply: Reply<AccountData>)
    requires db.Valid()
    modifies db
    ensures db.Valid()
    ensures user.None? <==> reply == Unauthorized
    ensures user.None? ==> db.users == old(db.users)
    ensures user.Some? ==>
              reply == Data(TwoFactorDisabled("Two-Factor Authentication disabled."))
              && db.users == UpdateUsers(old(db.users), user.value.id, ClearTwoFactor)
    ensures db.sessions == old(db.sessions) && db.passkeys == old(db.passkeys)
    ensures db.vault == old(db.vault) && db.vaultSequence == old(db.vaultSequence)
  {
    if user.None? {
      return Unauthorized;
    }
    Auth.Disable2FA(db, user.value.id);
    reply := Data(TwoFactorDisabled("Two-Factor Authentication disabled."));
  }
}

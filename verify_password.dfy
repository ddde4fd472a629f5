/** `POST /api/verify-password`: re-checks the signed-in user's password before the vault
    reveals a secret. */
module VerifyPasswordApi {
  import opened Wrappers
  import opened Db
  import opened Http
  import Auth
  import Bcrypt
  import Seqs

  /** `password` is the JSON body's field (None when absent). The reply body is `valid`. */
  function Post(users: seq<UserRow>, user: Option<SessionUser>, password: Option<string>): (r: Reply<bool>)
    ensures user.None? <==> r == JsonError(401, "Unauthorized")
    ensures user.Some? && !Present(password) ==> r == JsonError(400, "Password is required")
    ensures user.Some? && Present(password) && !HasUser(users, user.value.id) ==> r == JsonError(404, "User not found")
    ensures r.Json? ==> r == Json(200, true) || r == Json(400, false)
    ensures r == Json(200, true) ==>
              exists u :: u in users && u.id == user.value.id && Bcrypt.Compare(password.value, u.passwordHash)
  {
    if user.None? then JsonError(401, "Unauthorized")
    else if !Present(password) then JsonError(400, "Password is required")
    else match Auth.UserById(users, user.value.id)
      case None => JsonError(404, "User not found")
      case Some(u) => if Bcrypt.Compare(password.value, u.passwordHash) then Json(200, true) else Json(400, false)
  }

  /** With `users.id` a primary key the answer is exact: valid precisely when the password is
      the signed-in user's own, and `valid: false` for any other password. */
  lemma PostExact(users: seq<UserRow>, user: SessionUser, password: string)
    requires UsersOk(users) && password != ""
    requires HasUser(users, user.id)
    ensures Post(users, Some(user), Some(password)) == Json(200, true) <==>
              exists u :: u in users && u.id == user.id && Bcrypt.Compare(password, u.passwordHash)
    ensures Post(users, Some(user), Some(password)) != Json(200, true) ==> Post(users, Some(user), Some(password)) == Json(400, false)
  {
    var f := Auth.UserById(users, user.id);
    if u :| u in users && u.id == user.id && Bcrypt.Compare(password, u.passwordHash) {
      Seqs.DistinctKeysUnique(users, UserId, u, f.value);
    }
  }
}

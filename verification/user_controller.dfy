/** The user half of the controller in src/controller/user.py: registration
    with its password rules, the clamped user listing, the password change,
    and deletion of an existing user. The bcrypt hash of a new password and
    the bcrypt check of an old one are parameters. */
module UserController {
  import opened Results
  import opened Store
  import opened Consistency
  import Text
  import Paging
  import UserRepo

  /** The shortest password accepted. */
  const MinPassword: nat := 6

  /** The password rules of registration and of the password change:
      not blank after `strip()`, and at least six characters long. */
  predicate AcceptablePassword(password: string) {
    Text.Strip(password) != "" && |password| >= MinPassword
  }

  /** `register_user`: false for a taken name, then for a blank password,
      then for a short one; otherwise the insert, whose errors are not
      caught. `hash` stands for the bcrypt hash of the password. */
  function RegisterUser(users: Db, username: string, password: string, hash: string): (r: Reply)
    ensures UserRepo.IsUsernameTaken(users, username) || !AcceptablePassword(password) ==>
              r == Reply(users, Success(false))
    ensures r.outcome.Failure? ==> r.db == users
  {
    if UserRepo.IsUsernameTaken(users, username) then Reply(users, Success(false))
    else if Text.Strip(password) == "" then Reply(users, Success(false))
    else if |password| < MinPassword then Reply(users, Success(false))
    else
      var s := UserRepo.Insert(users, username, hash);
      if s.raised.Some? then Reply(s.db, Failure(s.raised.value)) else Reply(s.db, Success(true))
  }

  /** Registration of a free name answers false exactly when the password
      is all whitespace or shorter than six characters. */
  lemma RegisterPasswordRule(users: Db, username: string, password: string, hash: string)
    requires !UserRepo.IsUsernameTaken(users, username)
    ensures (RegisterUser(users, username, password, hash).outcome == Success(false))
              <==> (Text.IsBlank(password) || |password| < MinPassword)
  {
    Text.StripEmptyIffBlank(password);
  }

  /** A free name that is not the text `None`, with an acceptable password,
      registers; `get` then finds the user with the given hash. */
  lemma RegisterStores(users: Db, username: string, password: string, hash: string)
    requires Consistent(users) && UserRepo.IsUserStore(users)
    requires username != "None" && username !in users.index && AcceptablePassword(password)
    ensures RegisterUser(users, username, password, hash).outcome == Success(true)
    ensures UserRepo.Get(RegisterUser(users, username, password, hash).db, username)
              == Some(map["username" := username, "password_hash" := hash, Deleted := "0"])
  {
    UserRepo.InsertThenFind(users, username, hash);
  }

  /** The page metadata of `get_users_paginated`: a limit of zero or below
      is replaced by 5 before the page count is taken, so the arithmetic
      never raises. */
  function UsersPage(users: Db, limit: int, page: int): (r: Paging.PageInfo)
    ensures r.total == Count(users) && r.page == page
    ensures r.limit == (if limit <= 0 then 5 else limit)
  {
    Paging.ClampedListing(Count(users), limit, page).value
  }

  /** The reported page count always covers the user count. */
  lemma UsersPageCovers(users: Db, limit: int, page: int)
    ensures var info := UsersPage(users, limit, page);
            (info.totalPages - 1) * info.limit < Count(users) <= info.totalPages * info.limit
  {
    Paging.ClampedListingPages(Count(users), limit, page);
  }

  /** What `update_user_password` returns: the text `"error"` for a refused
      request, the text `"update succesfully"`, or `False` when the store
      raised. */
  datatype PasswordReply = Refused | Changed | Failed

  /** The checks of `update_user_password` up to the store call, in source
      order: blank, short, wrong old password. */
  predicate PasswordChangeAllowed(users: Db, username: string, oldPassword: string, newPassword: string, checkpw: (string, string) -> bool)
    requires UserRepo.IsUserStore(users) && Shaped(users.schema, users.rows)
  {
    AcceptablePassword(newPassword) && UserRepo.VerifyPassword(users, username, oldPassword, checkpw)
  }

  /** `update_user_password` as written: it asks the store to set `username`
      and `password`, and the store refuses any update naming its key
      column. */
  function UpdatePasswordAsWritten(users: Db, username: string, oldPassword: string, newPassword: string, checkpw: (string, string) -> bool): (r: (Db, PasswordReply))
    requires UserRepo.IsUserStore(users) && Shaped(users.schema, users.rows)
    ensures !PasswordChangeAllowed(users, username, oldPassword, newPassword, checkpw) ==> r == (users, Refused)
  {
    if Text.Strip(newPassword) == "" then (users, Refused)
    else if |newPassword| < MinPassword then (users, Refused)
    else if !UserRepo.VerifyPassword(users, username, oldPassword, checkpw) then (users, Refused)
    else
      var u := Store.Update(users, username, map["username" := username, "password" := newPassword]);
      if u.raised.Some? then (u.db, Failed) else (u.db, Changed)
  }

  /** As written, no password is ever changed: the call is refused or fails,
      and the store is left as it was. */
  lemma UpdatePasswordAsWrittenNeverChanges(users: Db, username: string, oldPassword: string, newPassword: string, checkpw: (string, string) -> bool)
    requires UserRepo.IsUserStore(users) && Shaped(users.schema, users.rows)
    ensures UpdatePasswordAsWritten(users, username, oldPassword, newPassword, checkpw).0 == users
    ensures UpdatePasswordAsWritten(users, username, oldPassword, newPassword, checkpw).1 != Changed
    ensures PasswordChangeAllowed(users, username, oldPassword, newPassword, checkpw) ==>
              UpdatePasswordAsWritten(users, username, oldPassword, newPassword, checkpw).1 == Failed
  {
  }

  /** `update_user_password` corrected: the new hash replaces the stored
      one; `newHash` stands for the bcrypt hash of the new password. */
  function UpdatePassword(users: Db, username: string, oldPassword: string, newPassword: string, newHash: string, checkpw: (string, string) -> bool): (r: (Db, PasswordReply))
    requires UserRepo.IsUserStore(users) && Shaped(users.schema, users.rows)
    ensures !PasswordChangeAllowed(users, username, oldPassword, newPassword, checkpw) ==> r == (users, Refused)
  {
    if Text.Strip(newPassword) == "" then (users, Refused)
    else if |newPassword| < MinPassword then (users, Refused)
    else if !UserRepo.VerifyPassword(users, username, oldPassword, checkpw) then (users, Refused)
    else
      var u := Store.Update(users, username, map["password_hash" := newHash]);
      if u.raised.Some? then (u.db, Failed) else (u.db, Changed)
  }

  /** The store call of the corrected password change, on a stored user:
      it succeeds, keeps the store consistent, and only the hash changes. */
  lemma SetHash(users: Db, username: string, newHash: string)
    requires Consistent(users) && UserRepo.IsUserStore(users) && username in ActiveKeys(users.index)
    ensures var u := Store.Update(users, username, map["password_hash" := newHash]);
            && u.raised.None?
            && Consistent(u.db)
            && UserRepo.Get(u.db, username) == Some(UserRepo.Get(users, username).value["password_hash" := newHash])
  {
    var updates := map["password_hash" := newHash];
    UserRepo.UserFields(users);
    UpdateOutcome(users, username, updates);
    UpdateThenGet(users, username, updates);
    GetFindsActive(users, username);
    MergeOne(UserRepo.Get(users, username).value, "password_hash", newHash);
    assert KeepsFlag(users, username, updates);
    UpdateKeepsConsistent(users, username, updates);
  }

  /** Corrected, a permitted change succeeds: the stored hash is the new one,
      the rest of the row is kept, and from then on `verify_password` checks
      against the new hash. */
  lemma UpdatePasswordChanges(users: Db, username: string, oldPassword: string, newPassword: string, newHash: string, checkpw: (string, string) -> bool, later: string)
    requires Consistent(users) && UserRepo.IsUserStore(users)
    requires PasswordChangeAllowed(users, username, oldPassword, newPassword, checkpw)
    ensures UpdatePassword(users, username, oldPassword, newPassword, newHash, checkpw).1 == Changed
    ensures var db' := UpdatePassword(users, username, oldPassword, newPassword, newHash, checkpw).0;
            && Consistent(db')
            && UserRepo.Get(db', username) == Some(UserRepo.Get(users, username).value["password_hash" := newHash])
            && UserRepo.VerifyPassword(db', username, later, checkpw) == checkpw(later, newHash)
  {
    GetFindsActive(users, username);
    SetHash(users, username, newHash);
  }

  /** `delete_user`: false for a user `get` does not find; otherwise the
      store's `delete`, true unless it raises. */
  function DeleteUser(users: Db, username: string): (r: (Db, bool))
    ensures Falsy(UserRepo.Get(users, username)) ==> r == (users, false)
  {
    if Falsy(UserRepo.Get(users, username)) then (users, false)
    else
      var d := Store.Delete(users, username);
      (d.db, d.raised.None?)
  }

  /** In a consistent store, `delete_user` reports true exactly for a stored
      user, who is then gone from `get` and from the count. */
  lemma DeleteUserReports(users: Db, username: string)
    requires Consistent(users) && UserRepo.IsUserStore(users)
    ensures DeleteUser(users, username).1 <==> username in ActiveKeys(users.index)
    ensures DeleteUser(users, username).1 ==>
              && UserRepo.Get(DeleteUser(users, username).0, username).None?
              && Count(DeleteUser(users, username).0) == Count(users) - 1
  {
    GetFindsActive(users, username);
    if username in ActiveKeys(users.index) {
      assert UserRepo.Get(users, username).value.Keys == FieldSet(users.schema);
      assert UserRepo.KeyCol in FieldSet(users.schema);
      DeleteTombstones(users, username);
      DeleteKeepsConsistent(users, username);
    }
  }

  /** `vacuum_users` does nothing: the user store keeps its tombstones. */
  function VacuumUsers(users: Db): (r: Db)
    ensures r == users
  {
    users
  }

  /** Unlike the store's own `vacuum`, which keeps only the active rows,
      `vacuum_users` leaves a deleted user's row in the data file. */
  lemma VacuumUsersKeepsTombstones(users: Db, username: string)
    requires Consistent(users) && username in users.index && users.index[username].flag == 1
    ensures |VacuumUsers(users).rows| > |Vacuum(users).db.rows|
  {
    ConsistentSize(users);
    VacuumCompacts(users);
    assert Count(users) < |users.index|;
  }
}

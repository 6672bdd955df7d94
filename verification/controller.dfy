/** The controller of src/controller/controller.py: boolean wrappers over
    the two repositories, the page metadata of the listings, and the start
    message of a server. Each wrapper takes the store it works on and hands
    back the store it leaves behind. Updates of servers go through the
    corrected repository `update` (see the findings in README.md). */
module Controller {
  import opened Results
  import opened Store
  import opened Consistency
  import Paging
  import UserRepo
  import ServerRepo

  /** A call that reports success as a boolean and catches the store's
      errors. */
  datatype Answer = Answer(db: Db, ok: bool)

  /** `register_user`: false for a taken name, otherwise the insert; its
      errors are not caught. `hash` stands for the bcrypt hash of the
      password. */
  function RegisterUser(users: Db, username: string, hash: string): (r: Reply)
    ensures UserRepo.IsUsernameTaken(users, username) ==> r == Reply(users, Success(false))
    ensures r.outcome.Failure? ==> r.db == users
  {
    if UserRepo.IsUsernameTaken(users, username) then Reply(users, Success(false))
    else
      var s := UserRepo.Insert(users, username, hash);
      if s.raised.Some? then Reply(s.db, Failure(s.raised.value)) else Reply(s.db, Success(true))
  }

  /** A free name that is not the text `None` registers, and `get` then
      finds it with the given hash. */
  lemma RegisterFreshName(users: Db, username: string, hash: string)
    requires Consistent(users) && UserRepo.IsUserStore(users)
    requires username != "None" && username !in users.index
    ensures RegisterUser(users, username, hash).outcome == Success(true)
    ensures UserRepo.Get(RegisterUser(users, username, hash).db, username)
              == Some(map["username" := username, "password_hash" := hash, Deleted := "0"])
  {
    UserRepo.InsertThenFind(users, username, hash);
  }

  /** A deleted user's name is free by `is_username_taken`, yet registering
      it again raises: the tombstone keeps the key in the index. */
  lemma ReRegisterAfterDelete(users: Db, username: string, hash: string)
    requires Consistent(users) && UserRepo.IsUserStore(users)
    requires username != "None" && username in ActiveKeys(users.index)
    ensures var gone := DeleteUser(users, username).db;
            && !UserRepo.IsUsernameTaken(gone, username)
            && RegisterUser(gone, username, hash) == Reply(gone, Failure(DuplicateKey(username)))
  {
    DeleteKeepsConsistent(users, username);
    DeleteTombstones(users, username);
    var gone := DeleteUser(users, username).db;
    assert username in gone.index;
  }

  /** The page metadata of `get_users_paginated` over the user count; the
      limit is used as given, so 0 raises. */
  function UsersPage(users: Db, limit: int, page: int): (r: Result<Paging.PageInfo, Error>)
    ensures r.Failure? <==> limit == 0
    ensures r.Success? ==> r.value.total == Count(users)
  {
    Paging.Listing(Count(users), limit, page)
  }

  /** The page metadata of `get_servers_paginated`, over the server
      count. */
  function ServersPage(servers: Db, limit: int, page: int): (r: Result<Paging.PageInfo, Error>)
    ensures r.Failure? <==> limit == 0
    ensures r.Success? ==> r.value.total == Count(servers)
  {
    Paging.Listing(Count(servers), limit, page)
  }

  /** With a positive limit, the listing of a consistent store reports as
      many pages as `get_all`'s active rows need. */
  lemma PagesCoverActiveRows(db: Db, limit: int, page: int)
    requires Consistent(db) && limit > 0
    ensures UsersPage(db, limit, page).Success?
    ensures GetAll(db).Success?
    ensures var pages := UsersPage(db, limit, page).value.totalPages;
            (pages - 1) * limit < |GetAll(db).value| <= pages * limit
  {
    CountIsActiveRows(db);
    Paging.PageCountIsCeiling(Count(db), limit);
  }

  /** `update_user`: the store's `update` straight on the user store, true
      unless it raises. */
  function UpdateUser(users: Db, username: string, updates: Row): (r: Answer)
    ensures !r.ok ==> r.db == users
    ensures username !in users.index || users.index[username].flag == 1 ==> !r.ok
    ensures UserRepo.KeyCol in updates && users.keyCol == UserRepo.KeyCol ==> !r.ok
  {
    var u := Store.Update(users, username, updates);
    Answer(u.db, u.raised.None?)
  }

  /** An update of a stored user that leaves the name alone and stays in the
      schema reports true, and `get` then shows the new values. */
  lemma UpdateUserApplies(users: Db, username: string, updates: Row)
    requires Consistent(users) && UserRepo.IsUserStore(users) && username in ActiveKeys(users.index)
    requires UserRepo.KeyCol !in updates && updates.Keys <= FieldSet(users.schema)
    ensures UpdateUser(users, username, updates).ok
    ensures UserRepo.Get(UpdateUser(users, username, updates).db, username)
              == Some(UserRepo.Get(users, username).value + updates)
  {
    UpdateOutcome(users, username, updates);
    UpdateThenGet(users, username, updates);
  }

  /** `delete_user`: the store's `delete` straight on the user store, true
      unless it raises, so also for a user that does not exist. */
  function DeleteUser(users: Db, username: string): (r: Answer)
    ensures username !in users.index || users.index[username].flag == 1 ==> r == Answer(users, true)
  {
    var d := Store.Delete(users, username);
    Answer(d.db, d.raised.None?)
  }

  /** Deleting a stored user reports true, hides the user from `get` and
      lowers the count by one. */
  lemma DeleteUserRemoves(users: Db, username: string)
    requires Consistent(users) && username in ActiveKeys(users.index)
    ensures DeleteUser(users, username).ok
    ensures UserRepo.Get(DeleteUser(users, username).db, username).None?
    ensures Count(DeleteUser(users, username).db) == Count(users) - 1
  {
    DeleteTombstones(users, username);
    DeleteKeepsConsistent(users, username);
  }

  /** `update_server`: the repository's `update`, true unless it raises. */
  function UpdateServer(servers: Db, id: string, updates: Row): (r: Answer)
    ensures Falsy(ServerRepo.Get(servers, id)) ==> r == Answer(servers, false)
  {
    var u := ServerRepo.Update(servers, id, updates);
    Answer(u.db, u.raised.None?)
  }

  /** The same wrapper over the repository's `update` as written. */
  function UpdateServerAsWritten(servers: Db, id: string, updates: Row): (r: Answer)
    ensures Falsy(ServerRepo.Get(servers, id)) ==> r == Answer(servers, false)
  {
    var u := ServerRepo.UpdateAsWritten(servers, id, updates);
    Answer(u.db, u.raised.None?)
  }

  /** As written, `update_server` reports false for every server and every
      update, and changes nothing. */
  lemma UpdateServerAsWrittenFails(servers: Db, id: string, updates: Row)
    requires ServerRepo.IsServerStore(servers) && Shaped(servers.schema, servers.rows)
    ensures UpdateServerAsWritten(servers, id, updates) == Answer(servers, false)
  {
    ServerRepo.UpdateAsWrittenAlwaysRaises(servers, id, updates);
  }

  /** Corrected, `update_server` of a stored server reports true exactly
      when the update stays inside the schema. */
  lemma UpdateServerReports(servers: Db, id: string, updates: Row)
    requires Consistent(servers) && ServerRepo.IsServerStore(servers) && id in ActiveKeys(servers.index)
    ensures UpdateServer(servers, id, updates).ok <==> updates.Keys <= FieldSet(servers.schema)
    ensures !UpdateServer(servers, id, updates).ok ==> UpdateServer(servers, id, updates).db == servers
  {
    ServerRepo.UpdateOutcomes(servers, id, updates);
  }

  /** `delete_server`: the repository's `delete`, true unless it raises. */
  function DeleteServer(servers: Db, id: string): (r: Answer)
    ensures id !in servers.index || servers.index[id].flag == 1 ==> r == Answer(servers, true)
  {
    var d := ServerRepo.Delete(servers, id);
    Answer(d.db, d.raised.None?)
  }

  /** Deleting a stored server reports true and hides it from `get`. */
  lemma DeleteServerRemoves(servers: Db, id: string)
    requires Consistent(servers) && id in ActiveKeys(servers.index)
    ensures DeleteServer(servers, id).ok
    ensures ServerRepo.Get(DeleteServer(servers, id).db, id).None?
    ensures Count(DeleteServer(servers, id).db) == Count(servers) - 1
  {
    DeleteTombstones(servers, id);
    DeleteKeepsConsistent(servers, id);
  }

  function NotFoundMessage(id: string): string {
    "Server with ID '" + id + "' not found"
  }

  function StartedMessage(id: string): string {
    "Server '" + id + "' started successfully"
  }

  /** `start_server`: a message naming the server, which says whether
      `get` found it. */
  function StartServer(servers: Db, id: string): (msg: string)
    ensures Falsy(ServerRepo.Get(servers, id)) ==> msg == NotFoundMessage(id)
    ensures !Falsy(ServerRepo.Get(servers, id)) ==> msg == StartedMessage(id)
  {
    if Falsy(ServerRepo.Get(servers, id)) then NotFoundMessage(id) else StartedMessage(id)
  }

  /** The two messages never coincide: they part at the eighth character. */
  lemma MessagesDiffer(id: string)
    ensures NotFoundMessage(id) != StartedMessage(id)
  {
    assert NotFoundMessage(id)[7] == 'w';
    assert StartedMessage(id)[7] == '\'';
  }

  /** In a consistent server store, `start_server` reports a start exactly
      for the servers whose index flag is 0. */
  lemma StartServerIffStored(servers: Db, id: string)
    requires Consistent(servers) && ServerRepo.IsServerStore(servers)
    ensures StartServer(servers, id) == StartedMessage(id) <==> id in ActiveKeys(servers.index)
  {
    GetFindsActive(servers, id);
    MessagesDiffer(id);
    if ServerRepo.Get(servers, id).Some? {
      assert ServerRepo.Get(servers, id).value.Keys == FieldSet(servers.schema);
      assert ServerRepo.KeyCol in FieldSet(servers.schema);
    }
  }
}

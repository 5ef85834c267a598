/**
 * Calls of the two workflows in sequence on one shared user table, as the
 * service wires them: what one operation leaves behind is what the next sees.
 */
module Workflows {
  import opened Domain
  import opened UserMapper
  import opened Accounts
  import opened Auth

  /** A profile update is seen by the next lookup by id, with exactly the names given. */
  method UpdateThenGet(accounts: UserService, id: int, request: UserUpdateRequest)
    returns (updated: Result<ApiResponse<UserView>>, read: Result<ApiResponse<UserView>>)
    requires accounts.Valid()
    modifies accounts.store
    ensures accounts.Valid()
    ensures updated.Ok? <==> read.Ok?
    ensures read.Thrown? ==> updated.exception == UserNotFound && read.exception == UserNotFound
    ensures read.Ok? ==> && read.value.data == updated.value.data && read.value.data.Some?
                         && read.value.data.value.firstName == request.firstName
                         && read.value.data.value.lastName == request.lastName
  {
    updated := accounts.UpdateUser(id, request);
    read := accounts.GetUserById(id);
  }

  /** Registration is not idempotent: after a success, the same request is refused. */
  method RegisterTwice(auth: AuthService, request: RegisterRequest)
    returns (first: Result<ApiResponse<()>>, second: Result<ApiResponse<()>>)
    requires auth.Valid()
    modifies auth.store
    ensures auth.Valid()
    ensures first.Ok? ==> second == Thrown(EmailAlreadyExists)
    ensures !MissingField(request) ==> second.Thrown?
  {
    ghost var id := auth.store.nextId;
    first := auth.Register(request);
    if first.Ok? {
      assert id in auth.store.users && auth.store.users[id].email == request.email.value;
    }
    second := auth.Register(request);
  }

  /** A registered user is found by email, with the names given at registration. */
  method RegisterThenGetByEmail(auth: AuthService, accounts: UserService, request: RegisterRequest)
    returns (registered: Result<ApiResponse<()>>, read: Result<ApiResponse<UserView>>)
    requires auth.store == accounts.store && auth.encode == accounts.encode
    requires auth.Valid()
    modifies auth.store
    ensures accounts.Valid()
    ensures registered.Ok? ==>
              && request.email.Some? && read.Ok? && read.value.data.Some?
              && read.value.data.value.email == request.email.value
              && read.value.data.value.firstName == request.firstName
              && read.value.data.value.lastName == request.lastName
  {
    ghost var id := auth.store.nextId;
    registered := auth.Register(request);
    if registered.Ok? {
      assert id in auth.store.users && auth.store.users[id].email == request.email.value;
    }
    var email := if request.email.Some? then request.email.value else "";
    read := accounts.GetUserByEmail(email);
  }

  /** A deleted user's id is gone for good: a later registration never receives it. */
  method DeleteThenRegister(auth: AuthService, accounts: UserService, id: int, request: RegisterRequest)
    returns (deleted: Result<ApiResponse<()>>, registered: Result<ApiResponse<()>>, read: Result<ApiResponse<UserView>>)
    requires auth.store == accounts.store && auth.encode == accounts.encode
    requires accounts.Valid()
    modifies accounts.store
    ensures accounts.Valid()
    ensures deleted.Ok? ==> read == Thrown(UserNotFound)
  {
    deleted := accounts.DeleteUser(id);
    registered := auth.Register(request);
    read := accounts.GetUserById(id);
  }
}

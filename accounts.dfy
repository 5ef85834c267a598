/**
 * The account workflow: listing, looking up, updating and deleting users in
 * the user table. Each lookup by a key that is not stored throws
 * `UserNotFoundException("User not found")`; each change touches one user only.
 */
module Accounts {
  import opened Domain
  import opened UserMapper
  import opened UserRepository

  /** The profile-update request; either name may be null. */
  datatype UserUpdateRequest = UserUpdateRequest(firstName: Option<string>, lastName: Option<string>)

  /** The password-update request. */
  datatype PasswordUpdateRequest = PasswordUpdateRequest(newPassword: string)

  /** `views` holds one view per user of `table`, each the view of that user. */
  ghost predicate ViewsOfAll(views: seq<UserView>, table: map<nat, User>)
  {
    && |views| == |table|
    && (forall i :: 0 <= i < |views| ==> views[i].id in table && views[i] == MapToView(table[views[i].id]))
    && (forall id {:trigger MapToView(table[id]) in views} :: id in table ==> MapToView(table[id]) in views)
    && (forall i, j :: 0 <= i < j < |views| ==> views[i].id != views[j].id)
  }

  /** Mapping a listing of the table user by user gives one view per stored user. */
  lemma ViewsOfListing(all: seq<User>, views: seq<UserView>, table: map<nat, User>)
    requires ListsTable(all, table)
    requires |views| == |all| && forall i :: 0 <= i < |all| ==> views[i] == MapToView(all[i])
    ensures ViewsOfAll(views, table)
  {
    forall id | id in table
      ensures MapToView(table[id]) in views
    {
      assert table[id] in all;
      var i :| 0 <= i < |all| && all[i] == table[id];
      assert views[i] == MapToView(table[id]);
    }
  }

  class UserService {
    /** The user repository, shared with the authentication workflow. */
    const store: UserStore
    /** The password encoder. */
    const encode: string -> string

    constructor (store: UserStore, encode: string -> string)
      ensures this.store == store && this.encode == encode
    {
      this.store := store;
      this.encode := encode;
    }

    /** The table's invariant, and every stored password is an encoded one. */
    ghost predicate Valid()
      reads this, store
    {
      store.ValidWith(encode)
    }

    /** `getAllUsers`: exactly one view per stored user, each the view of that user. */
    function GetAllUsers(): (r: ApiResponse<seq<UserView>>)
      requires store.Valid()
      reads store
      ensures r.success && r.message == "Users retrieved successfully" && r.data.Some?
      ensures ViewsOfAll(r.data.value, store.users)
    {
      var all := store.FindAll();
      var views := seq(|all|, i requires 0 <= i < |all| => MapToView(all[i]));
      ViewsOfListing(all, views, store.users);
      ApiResponse(true, "Users retrieved successfully", Some(views))
    }

    /** `getUserById`: the view of the user stored under `id`, or "User not found". */
    function GetUserById(id: int): (r: Result<ApiResponse<UserView>>)
      reads store
      ensures r.Thrown? <==> id !in store.users
      ensures r.Thrown? ==> r.exception == UserNotFound
      ensures r.Ok? ==> r.value == ApiResponse(true, "User retrieved successfully", Some(MapToView(store.users[id])))
    {
      match store.FindById(id)
      case None => Thrown(UserNotFound)
      case Some(user) => Ok(ApiResponse(true, "User retrieved successfully", Some(MapToView(user))))
    }

    /** `getUserByEmail`: the view of the one user with that email, or "User not found". */
    function GetUserByEmail(email: string): (r: Result<ApiResponse<UserView>>)
      requires store.Valid()
      reads store
      ensures r.Thrown? <==> forall id :: id in store.users ==> store.users[id].email != email
      ensures r.Thrown? ==> r.exception == UserNotFound
      ensures r.Ok? ==> && r.value.success && r.value.message == "User retrieved successfully"
                        && r.value.data.Some? && r.value.data.value.email == email
                        && r.value.data.value.id in store.users
                        && r.value.data.value == MapToView(store.users[r.value.data.value.id])
    {
      match store.FindByEmail(email)
      case None => Thrown(UserNotFound)
      case Some(user) => Ok(ApiResponse(true, "User retrieved successfully", Some(MapToView(user))))
    }

    /**
     * `updateUser`: overwrites both names of the user with the request's
     * values, null included, and nothing else; answers with the new view.
     */
    method UpdateUser(id: int, request: UserUpdateRequest) returns (r: Result<ApiResponse<UserView>>)
      requires Valid()
      modifies store
      ensures Valid()
      ensures store.nextId == old(store.nextId) && store.issued == old(store.issued)
      ensures id !in old(store.users) ==> r == Thrown(UserNotFound) && store.users == old(store.users)
      ensures id in old(store.users) ==>
                var updated := old(store.users)[id].(firstName := request.firstName, lastName := request.lastName);
                && store.users == old(store.users)[id := updated]
                && r == Ok(ApiResponse(true, "User updated successfully", Some(MapToView(updated))))
    {
      var found := store.FindById(id);
      if found.None? {
        return Thrown(UserNotFound);
      }
      var user := found.value.(firstName := request.firstName, lastName := request.lastName);
      store.Save(user);
      assert store.PasswordsEncodedBy(encode) by {
        forall k | k in store.users
          ensures exists raw :: store.users[k].password == encode(raw)
        {
          assert store.users[k].password == old(store.users)[k].password;
        }
      }
      r := Ok(ApiResponse(true, "User updated successfully", Some(MapToView(user))));
    }

    /** `updateUserPassword`: stores the encoding of the new password, and nothing else. */
    method UpdateUserPassword(id: int, request: PasswordUpdateRequest) returns (r: Result<ApiResponse<()>>)
      requires Valid()
      modifies store
      ensures Valid()
      ensures store.nextId == old(store.nextId) && store.issued == old(store.issued)
      ensures id !in old(store.users) ==> r == Thrown(UserNotFound) && store.users == old(store.users)
      ensures id in old(store.users) ==>
                && store.users == old(store.users)[id := old(store.users)[id].(password := encode(request.newPassword))]
                && r == Ok(ApiResponse(true, "User password updated successfully", None))
    {
      var found := store.FindById(id);
      if found.None? {
        return Thrown(UserNotFound);
      }
      var user := found.value.(password := encode(request.newPassword));
      store.Save(user);
      assert store.PasswordsEncodedBy(encode) by {
        forall k | k in store.users
          ensures exists raw :: store.users[k].password == encode(raw)
        {
          if k == id {
            assert store.users[k].password == encode(request.newPassword);
          } else {
            assert store.users[k] == old(store.users)[k];
          }
        }
      }
      r := Ok(ApiResponse(true, "User password updated successfully", None));
    }

    /** `deleteUser`: removes exactly the user stored under `id`, or throws "User not found". */
    method DeleteUser(id: int) returns (r: Result<ApiResponse<()>>)
      requires Valid()
      modifies store
      ensures Valid()
      ensures store.nextId == old(store.nextId) && store.issued == old(store.issued)
      ensures id !in old(store.users) ==> r == Thrown(UserNotFound) && store.users == old(store.users)
      ensures id in old(store.users) ==>
                && store.users == old(store.users) - {id}
                && r == Ok(ApiResponse(true, "User deleted successfully", None))
    {
      if !store.ExistsById(id) {
        return Thrown(UserNotFound);
      }
      store.DeleteById(id);
      r := Ok(ApiResponse(true, "User deleted successfully", None));
    }
  }
}

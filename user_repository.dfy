/**
 * The user table behind both workflows. It stands for the persistence
 * repository the services are given: a map from id to user, and a counter
 * from which fresh ids are drawn when a new user is saved.
 */
module UserRepository {
  import opened Domain

  /** No two stored users share an email. */
  ghost predicate UniqueEmails(users: map<nat, User>)
  {
    forall i, j :: i in users && j in users && users[i].email == users[j].email ==> i == j
  }

  /** The least element of `ids`. */
  lemma {:induction false} Least(ids: set<nat>) returns (least: nat)
    requires ids != {}
    ensures least in ids && forall id :: id in ids ==> least <= id
  {
    var x :| x in ids;
    var rest := ids - {x};
    least := x;
    if rest != {} {
      var y := Least(rest);
      least := if x < y then x else y;
    }
    forall id | id in ids
      ensures least <= id
    {
      assert id == x || id in rest;
    }
  }

  /** `ids` has a least element. */
  lemma LeastExists(ids: set<nat>)
    requires ids != {}
    ensures exists least :: least in ids && forall id :: id in ids ==> least <= id
  {
    var least := Least(ids);
  }

  /** The ascending listing of a set of ids. */
  ghost predicate ListsAscending(r: seq<nat>, ids: set<nat>)
  {
    && |r| == |ids|
    && (forall i :: 0 <= i < |r| ==> r[i] in ids)
    && (forall id {:trigger id in r} :: id in ids ==> id in r)
    && (forall i, j :: 0 <= i < j < |r| ==> r[i] < r[j])
  }

  /** Putting the least id in front of the ascending listing of the others lists them all. */
  lemma PrependLeast(least: nat, ids: set<nat>, rest: seq<nat>)
    requires least in ids && forall id :: id in ids ==> least <= id
    requires ListsAscending(rest, ids - {least})
    ensures ListsAscending([least] + rest, ids)
  {
  }

  /** The ids of `ids`, each once, in ascending order. */
  function SortedIds(ids: set<nat>): (r: seq<nat>)
    ensures ListsAscending(r, ids)
    decreases ids
  {
    if ids == {} then []
    else
      LeastExists(ids);
      var least :| least in ids && forall id :: id in ids ==> least <= id;
      var rest := SortedIds(ids - {least});
      PrependLeast(least, ids, rest);
      [least] + rest
  }

  /** `all` holds every user of `table` once, in ascending id order. */
  ghost predicate ListsTable(all: seq<User>, table: map<nat, User>)
  {
    && |all| == |table|
    && (forall i :: 0 <= i < |all| ==> all[i].id in table && table[all[i].id] == all[i])
    && (forall i, j :: 0 <= i < j < |all| ==> all[i].id < all[j].id)
    && (forall id {:trigger table[id] in all} :: id in table ==> table[id] in all)
  }

  /** The users of `table`, each stored under its own id, in ascending id order. */
  function ListAscending(table: map<nat, User>): (all: seq<User>)
    requires forall id :: id in table ==> table[id].id == id
    ensures ListsTable(all, table)
  {
    var ids := SortedIds(table.Keys);
    var all := seq(|ids|, i requires 0 <= i < |ids| => table[ids[i]]);
    forall i | 0 <= i < |all|
      ensures all[i].id == ids[i] && all[i].id in table && table[all[i].id] == all[i]
    {
      assert ids[i] in table;
    }
    forall id | id in table
      ensures table[id] in all
    {
      assert id in ids;
      var i :| 0 <= i < |ids| && ids[i] == id;
      assert all[i] == table[id];
    }
    all
  }

  class UserStore {
    var users: map<nat, User>
    /** The id the next inserted user receives. */
    var nextId: nat
    /** Every id ever given to a user, including users since deleted. */
    ghost var issued: set<nat>

    /**
     * Each user is stored under its own id, every stored id was issued, no id
     * at or above `nextId` was issued, and emails are unique.
     */
    ghost predicate Valid()
      reads this
    {
      && users.Keys <= issued
      && (forall id :: id in issued ==> id < nextId)
      && (forall id :: id in users ==> users[id].id == id)
      && UniqueEmails(users)
    }

    /** Every stored password is the encoding of some raw password. */
    ghost predicate PasswordsEncodedBy(encode: string -> string)
      reads this
    {
      forall id :: id in users ==> exists raw :: users[id].password == encode(raw)
    }

    /** The invariant a service sharing this table with the encoder `encode` keeps. */
    ghost predicate ValidWith(encode: string -> string)
      reads this
    {
      Valid() && PasswordsEncodedBy(encode)
    }

    constructor ()
      ensures Valid()
      ensures users == map[] && issued == {} && nextId == 0
    {
      users := map[];
      nextId := 0;
      issued := {};
    }

    /** The repository's `findById`; a negative id is never stored. */
    function FindById(id: int): (r: Option<User>)
      reads this
      ensures r.Some? <==> id in users
      ensures r.Some? ==> 0 <= id && r.value == users[id]
    {
      if 0 <= id && id in users then Some(users[id]) else None
    }

    /** The repository's `existsById`; a negative id is never stored. */
    predicate ExistsById(id: int)
      reads this
    {
      0 <= id && id in users
    }

    /** The repository's `existsByEmail`; emails compare exactly, character by character. */
    predicate ExistsByEmail(email: string)
      reads this
    {
      exists id :: id in users && users[id].email == email
    }

    /** The repository's `findByEmail`: the one user with that email, if any. */
    function FindByEmail(email: string): (r: Option<User>)
      requires Valid()
      reads this
      ensures r.Some? <==> ExistsByEmail(email)
      ensures r.Some? ==> r.value.id in users && users[r.value.id] == r.value && r.value.email == email
    {
      if ExistsByEmail(email) then
        var id :| id in users && users[id].email == email;
        Some(users[id])
      else None
    }

    /** The repository's `findAll`: every stored user once, here in ascending id order. */
    function FindAll(): (all: seq<User>)
      requires Valid()
      reads this
      ensures ListsTable(all, users)
    {
      ListAscending(users)
    }

    /** The repository's `save` of a new user: it is stored under a fresh id. */
    method Insert(email: string, firstName: Option<string>, lastName: Option<string>, password: string)
      returns (id: nat)
      requires Valid()
      requires !ExistsByEmail(email)
      modifies this
      ensures Valid()
      ensures id == old(nextId) && id !in old(issued) && issued == old(issued) + {id}
      ensures nextId == old(nextId) + 1
      ensures users == old(users)[id := User(id, email, firstName, lastName, password)]
    {
      id := nextId;
      users := users[id := User(id, email, firstName, lastName, password)];
      issued := issued + {id};
      nextId := nextId + 1;
    }

    /** The repository's `save` of a user that was just found, with its email untouched. */
    method Save(user: User)
      requires Valid()
      requires user.id in users && users[user.id].email == user.email
      modifies this
      ensures Valid()
      ensures users == old(users)[user.id := user]
      ensures nextId == old(nextId) && issued == old(issued)
    {
      users := users[user.id := user];
    }

    /** The repository's `deleteById`. */
    method DeleteById(id: nat)
      requires Valid()
      modifies this
      ensures Valid()
      ensures users == old(users) - {id}
      ensures nextId == old(nextId) && issued == old(issued)
    {
      users := users - {id};
    }
  }
}

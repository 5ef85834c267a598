/** The public view of a stored user: every field but the password. */
module UserMapper {
  import opened Domain

  /** The outward representation of a user; it has no password field at all. */
  datatype UserView = UserView(id: nat, email: string, firstName: Option<string>, lastName: Option<string>)

  /** The view of `user`: with any password put back, it is `user` with that password. */
  function MapToView(user: User): (r: UserView)
    ensures forall password :: Restore(r, password) == user.(password := password)
  {
    UserView(user.id, user.email, user.firstName, user.lastName)
  }

  /** Rebuilds a user from its view and a password: the partner of `MapToView`. */
  ghost function Restore(view: UserView, password: string): User
  {
    User(view.id, view.email, view.firstName, view.lastName, password)
  }

  /** The view loses exactly the password: adding the password back gives the user again. */
  lemma ViewKeepsAllButPassword(user: User)
    ensures Restore(MapToView(user), user.password) == user
    ensures MapToView(user).id == user.id && MapToView(user).email == user.email
    ensures MapToView(user).firstName == user.firstName && MapToView(user).lastName == user.lastName
  {
  }

  /** Two users have the same view exactly when they differ at most in their password. */
  lemma ViewIgnoresOnlyPassword(u1: User, u2: User)
    ensures MapToView(u1) == MapToView(u2) <==> u1.(password := u2.password) == u2
  {
  }
}

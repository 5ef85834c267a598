# Account bookkeeping of the KAWA authentication service

This project models the core of a Spring authentication and user-account
service in Dafny and proves properties of that model. The core is the user
table and the operations that change it:

- registration, with its null-field check, its email-uniqueness check and the
  insertion of a user whose password is stored encoded;
- listing users, and looking one up by id or by email;
- overwriting a user's names, re-encoding a password, and deleting a user;
- the password-free public view of a user;
- the global exception handler, which turns an exception into an HTTP status
  and a `{success = false, message, data = null}` envelope.

Login and token verification only delegate to collaborators, and are modelled
as such.

Files and modules:

- `domain.dfy` (`Domain`): `Option` (`None` is Java's `null`), the
  `ApiResponse` envelope, the exceptions the workflows throw, `Result` (a value
  or a thrown exception), and the stored `User`.
- `user_mapper.dfy` (`UserMapper`): `UserView` and `MapToView`.
- `user_repository.dfy` (`UserRepository`): the class `UserStore`, which stands
  for the user repository. It holds `users: map<nat, User>`, the counter
  `nextId` from which fresh ids are drawn, and the ghost set `issued` of every
  id ever given out. Its invariant `Valid()` says four things: each user is
  stored under its own id; every stored id was issued; every issued id is below
  `nextId`; and emails are unique.
- `accounts.dfy` (`Accounts`): the class `UserService`, the account workflow.
- `auth.dfy` (`Auth`): the class `AuthService`, the authentication workflow.
- `exception_handling.dfy` (`ExceptionHandling`): the global exception handler.
- `workflows.dfy` (`Workflows`): the two services called in sequence on one
  shared table.

Collaborators the source receives by injection become `const` function fields
of the service classes:

- the password encoder `encode`;
- the authentication manager `authenticate`, which answers or throws;
- the token service's `generateToken` and `validateToken`.

Both services take the same `UserStore` object. Each service's invariant
`Valid()` is the table's `ValidWith(encode)`: the table's invariant, plus
"every stored password is `encode` of some raw password". Every
state-changing method keeps that invariant.

Exceptions are values. A workflow returns `Thrown(e)` where the source throws
`e`. The handler dispatches on the exception's ancestry: its own class, then
each superclass, nearest first. It picks the handler declared for the nearest
class that has one, as Spring does with `@ExceptionHandler` methods.

Points where the code's behaviour is easy to misread:

- No handler names `UserNotFoundException`, the exception every lookup by a
  missing key throws. Its status is therefore that of its nearest handled
  superclass, which is not part of this model.
  `UserNotFoundFollowsItsSuperclass` proves two cases: 404 when that
  superclass is `ResourceNotFoundException`, and 500 when it is
  `RuntimeException`.
- `verifyToken` fails exactly when `validateToken` throws, and then with
  whatever exception it throws. It discards anything `validateToken` returns.
- `login` throws "Invalid credentials" only when the authenticator returns a
  result that is not authenticated. When the authenticator throws, its
  exception passes through unchanged, and the handler decides the status by
  that exception's class.
- `updateUser` overwrites both names even when the request's value is null,
  so stored names are `Option<string>`.
- Ids are `Long` values: any `Long` may be asked for; the model accepts every
  `int`, a superset. A negative id is never stored, so it gets "User not
  found" like any other missing id.

## Model

| member | source | states |
|---|---|---|
| `UserMapper.ViewKeepsAllButPassword` | src/main/java/com/kawa/mspr/auth_service/mapper/UserMapper.java:15-22 | the view's id, email, firstName and lastName are the user's; adding the user's password back to the view gives the user again, so the view has every field except the password |
| `UserMapper.ViewIgnoresOnlyPassword` | src/main/java/com/kawa/mspr/auth_service/mapper/UserMapper.java:15-22 | two users have the same view if and only if they differ at most in their password |
| `UserMapper.MapToView` | src/main/java/com/kawa/mspr/auth_service/mapper/UserMapper.java:15-22 | the view carries everything of the user but the password: putting any password back into the view gives the user with that password |
| `Accounts.UserService.GetAllUsers` | src/main/java/com/kawa/mspr/auth_service/service/impl/UserServiceImpl.java:42-47 | success with "Users retrieved successfully"; the list has exactly one view per stored user: same length as the table, the view of every stored user is in it, every element is the view of the stored user with its id, and no id appears twice |
| `Accounts.ViewsOfListing` | src/main/java/com/kawa/mspr/auth_service/service/impl/UserServiceImpl.java:43-45 | mapping `MapToView` over a listing that holds every user once gives one view per stored user |
| `Accounts.UserService.GetUserById` | src/main/java/com/kawa/mspr/auth_service/service/impl/UserServiceImpl.java:96-102 | throws "User not found" exactly when the id is not stored; otherwise succeeds with the view of the user stored under that id; reads the table and changes nothing |
| `Accounts.UserService.GetUserByEmail` | src/main/java/com/kawa/mspr/auth_service/service/impl/UserServiceImpl.java:111-117 | throws "User not found" exactly when no stored user has that email; otherwise succeeds with the view of the stored user with that email; changes nothing |
| `Accounts.UserService.UpdateUser` | src/main/java/com/kawa/mspr/auth_service/service/impl/UserServiceImpl.java:58-69 | on a missing id, throws "User not found" and leaves the table as it was; otherwise sets both names to the request's values, null included, with no merge; id, email, password and all other users stay unchanged; answers with the view of the updated user; keeps email uniqueness and encoded passwords |
| `Accounts.UserService.UpdateUserPassword` | src/main/java/com/kawa/mspr/auth_service/service/impl/UserServiceImpl.java:79-87 | on a missing id, throws "User not found" and leaves the table as it was; otherwise the stored password becomes `encode(newPassword)`, no other field and no other user changes, and the answer carries null data |
| `Accounts.UserService.DeleteUser` | src/main/java/com/kawa/mspr/auth_service/service/impl/UserServiceImpl.java:126-132 | on a missing id, throws "User not found" and leaves the table as it was; otherwise removes exactly that id, keeps every other entry, and answers with null data; the removed id stays issued |
| `Auth.AuthService.Login` | src/main/java/com/kawa/mspr/auth_service/service/impl/AuthServiceImpl.java:57-70 | if the authenticator throws, that exception passes through; if it answers not-authenticated, throws "Invalid credentials", the same exception whatever the email or password; otherwise succeeds with the token generated for the authenticated principal; reads no state |
| `Auth.AuthService.Register` | src/main/java/com/kawa/mspr/auth_service/service/impl/AuthServiceImpl.java:80-101 | a null field (`MissingField`, the null test at lines 81-82) gives "Required fields not provided", checked before uniqueness, and the table is untouched; an email already stored gives "Email already exists", table untouched; otherwise exactly one user is added, under an id never issued before, with the given email and names and password `encode(password)`; no existing user changes; answers "User registered successfully" with null data; keeps email uniqueness and encoded passwords |
| `Auth.AuthService.VerifyToken` | src/main/java/com/kawa/mspr/auth_service/service/impl/AuthServiceImpl.java:110-115 | succeeds with null data exactly when the validator does not throw, and otherwise throws the validator's exception; reads no state |
| `ExceptionHandling.DeclaredHandler` | src/main/java/com/kawa/mspr/auth_service/exception/GlobalExceptionHandler.java:27-59 | a class has a handler of its own exactly when some handler's annotation names it, and the handler found is the one whose annotation names that class |
| `ExceptionHandling.Status` | src/main/java/com/kawa/mspr/auth_service/exception/GlobalExceptionHandler.java:27-59 | the handler for ResourceNotFoundException, and only it, answers 404; the one for IllegalArgumentException, and only it, 400; the one for Exception, and only it, 500 |
| `ExceptionHandling.Resolve` | src/main/java/com/kawa/mspr/auth_service/exception/GlobalExceptionHandler.java:27-60 | the chosen handler is the one declared for the nearest class in the exception's ancestry that has a handler; there is none only when no class in the ancestry has one |
| `ExceptionHandling.HandleException` | src/main/java/com/kawa/mspr/auth_service/exception/GlobalExceptionHandler.java:27-60 | an exception is answered when some class in its ancestry has a handler; every answer has success=false, the exception's message and null data, and status 404, 400 or 500 |
| `ExceptionHandling.NearestHandledClassDecides` | src/main/java/com/kawa/mspr/auth_service/exception/GlobalExceptionHandler.java:27-60 | the handler of the nearest handled class decides the status, whatever classes lie further up |
| `ExceptionHandling.ResourceNotFoundIsNotFound` | src/main/java/com/kawa/mspr/auth_service/exception/GlobalExceptionHandler.java:27-32 | a ResourceNotFoundException, or a subclass with no nearer handled class, gets status 404 and the failure envelope |
| `ExceptionHandling.IllegalArgumentIsBadRequest` | src/main/java/com/kawa/mspr/auth_service/exception/GlobalExceptionHandler.java:41-46 | an IllegalArgumentException gets 400, not 500, although Exception is among its superclasses |
| `ExceptionHandling.OtherExceptionIsInternalError` | src/main/java/com/kawa/mspr/auth_service/exception/GlobalExceptionHandler.java:55-60 | an Exception that is neither a ResourceNotFoundException nor an IllegalArgumentException gets 500 |
| `ExceptionHandling.UserNotFoundFollowsItsSuperclass` | src/main/java/com/kawa/mspr/auth_service/service/impl/UserServiceImpl.java:59-60 | the "User not found" exception is answered as its superclass would be; 404 when that superclass is ResourceNotFoundException, 500 when it is RuntimeException |
| `Workflows.UpdateThenGet` | src/main/java/com/kawa/mspr/auth_service/service/impl/UserServiceImpl.java:58-102 | after a successful update, a lookup by the same id succeeds with exactly the names given and the same view the update answered; after a failed one, both throw "User not found" |
| `Workflows.RegisterTwice` | src/main/java/com/kawa/mspr/auth_service/service/impl/AuthServiceImpl.java:86-96 | registering the same request again after a success is refused with "Email already exists" |
| `Workflows.RegisterThenGetByEmail` | src/main/java/com/kawa/mspr/auth_service/service/impl/AuthServiceImpl.java:91-96 | after a successful registration, a lookup by the registered email finds a view with that email and the given names |
| `Workflows.DeleteThenRegister` | src/main/java/com/kawa/mspr/auth_service/service/impl/UserServiceImpl.java:126-131 | after a successful delete, a later registration never reuses the deleted id, so a lookup of that id still throws "User not found" |

## Left out

- Token signing, expiry and claims: `generateToken` and `validateToken` are given functions. Nothing is stated about signatures or clocks, so token validity before expiry, after expiry or after alteration is not modelled.
- The authentication manager's internals: `authenticate` is a given function that answers or throws. It is not tied to the user table, so "register, then log in with the same credentials" is not stated.
- The password hash algorithm: `encode` is a given deterministic function. A salted encoder gives a different hash on each call. The model states only that the stored password is `encode` applied to the raw password.
- Id generation: the entity's id generator is not part of this model. New ids come from a counter that starts at 0 and never reuses an id. `Auth.AuthService.Register`'s fresh id and `Workflows.DeleteThenRegister` rest on that assumption.
- Persistence: transactions, a database-level unique constraint, and the race between the email check and the insert in `register`. Each operation is atomic and calls run one after another.
- Ordering of `findAll`: the model lists users in ascending id order. The source returns whatever order the database gives. `Accounts.UserService.GetAllUsers` does not promise an order.
- Entity aliasing: the source changes a fetched entity with setters and saves it. The model updates a `User` value and writes it back, and does not model the persistence context's tracking of managed entities.
- Null arguments: a null id, a null email for `getUserByEmail` and a null new password are not modelled; ids, emails and new passwords are non-null values here. What a null id or email does is up to the repository, and what a null new password does is up to the encoder, neither of which is part of this model.
- The `(UserDetails)` cast of the authenticated principal in `login` (AuthServiceImpl.java:66) is not modelled: the principal is a string, `generateToken` accepts every string, and the `ClassCastException` a principal of another type would raise is not represented.
- Email comparison is exact, character by character. Database collation is not modelled.
- The superclass of UserNotFoundException is not part of this model. It is a parameter of the handler.
- Logging, Spring annotations, dependency-injection constructors and the HTTP routing layer.
- UserService.java and AuthService.java are interface declarations with no logic. They supply only operation names.

/**
 * The authentication workflow: registration against the user table, and
 * login and token verification, which only delegate to collaborators. The
 * collaborators are given to the service as functions: the password encoder,
 * the authentication manager, and the token service's `generateToken` and
 * `validateToken`.
 */
module Auth {
  import opened Domain
  import opened UserRepository

  /** The registration request; any field may be null. */
  datatype RegisterRequest = RegisterRequest(
    email: Option<string>,
    password: Option<string>,
    firstName: Option<string>,
    lastName: Option<string>)

  /** The login request; both fields are handed to the authenticator as they are. */
  datatype LoginRequest = LoginRequest(email: Option<string>, password: Option<string>)

  datatype LoginResponse = LoginResponse(token: string)

  /** What the authentication manager answers: whether the credentials hold, and for whom. */
  datatype Authentication = Authentication(authenticated: bool, principal: string)

  const RequiredFieldsMissing: Exception := Exception(IllegalArgumentException, "Required fields not provided")
  const EmailAlreadyExists: Exception := Exception(IllegalArgumentException, "Email already exists")
  const InvalidCredentials: Exception := Exception(IllegalArgumentException, "Invalid credentials")

  /** Some field of the registration request is null. */
  predicate MissingField(request: RegisterRequest)
  {
    request.email.None? || request.password.None? || request.firstName.None? || request.lastName.None?
  }

  class AuthService {
    /** The user repository, shared with the account workflow. */
    const store: UserStore
    /** The password encoder. */
    const encode: string -> string
    /** The authentication manager: answers, or throws its own exception. */
    const authenticate: (Option<string>, Option<string>) -> Result<Authentication>
    /** The token service's `generateToken`, for an authenticated principal. */
    const generateToken: string -> string
    /** The token service's `validateToken`: `Some(e)` when it throws `e`, `None` when it returns. */
    const validateToken: string -> Option<Exception>

    constructor (
      store: UserStore,
      encode: string -> string,
      authenticate: (Option<string>, Option<string>) -> Result<Authentication>,
      generateToken: string -> string,
      validateToken: string -> Option<Exception>)
      ensures this.store == store && this.encode == encode && this.authenticate == authenticate
      ensures this.generateToken == generateToken && this.validateToken == validateToken
    {
      this.store := store;
      this.encode := encode;
      this.authenticate := authenticate;
      this.generateToken := generateToken;
      this.validateToken := validateToken;
    }

    /** The table's invariant, and every stored password is an encoded one. */
    ghost predicate Valid()
      reads this, store
    {
      store.ValidWith(encode)
    }

    /**
     * `login`: a token for the authenticated principal; "Invalid credentials"
     * when the authenticator answers not-authenticated, whoever asked; the
     * authenticator's own exception when it throws. Reads no state.
     */
    function Login(request: LoginRequest): (r: Result<ApiResponse<LoginResponse>>)
      ensures authenticate(request.email, request.password).Thrown? ==>
                r == Thrown(authenticate(request.email, request.password).exception)
      ensures authenticate(request.email, request.password).Ok? ==>
                var authentication := authenticate(request.email, request.password).value;
                && (r.Thrown? <==> !authentication.authenticated)
                && (r.Thrown? ==> r.exception == InvalidCredentials)
                && (r.Ok? ==> r.value == ApiResponse(true, "Login successful", Some(LoginResponse(generateToken(authentication.principal)))))
    {
      match authenticate(request.email, request.password)
      case Thrown(e) => Thrown(e)
      case Ok(authentication) =>
        if !authentication.authenticated then
          Thrown(InvalidCredentials)
        else
          var token := generateToken(authentication.principal);
          Ok(ApiResponse(true, "Login successful", Some(LoginResponse(token))))
    }

    /**
     * `register`: refuses a request with a null field, then an email already
     * stored; otherwise inserts one new user under a never-used id, with the
     * encoded password.
     */
    method Register(request: RegisterRequest) returns (r: Result<ApiResponse<()>>)
      requires Valid()
      modifies store
      ensures Valid()
      ensures MissingField(request) ==> r == Thrown(RequiredFieldsMissing) && unchanged(store)
      ensures !MissingField(request) && old(store.ExistsByEmail(request.email.value)) ==>
                r == Thrown(EmailAlreadyExists) && unchanged(store)
      ensures !MissingField(request) && !old(store.ExistsByEmail(request.email.value)) ==>
                var id := old(store.nextId);
                && id !in old(store.issued) && id !in old(store.users)
                && store.issued == old(store.issued) + {id} && store.nextId == id + 1
                && store.users == old(store.users)[id := User(id, request.email.value, request.firstName,
                                                              request.lastName, encode(request.password.value))]
                && r == Ok(ApiResponse(true, "User registered successfully", None))
    {
      if MissingField(request) {
        return Thrown(RequiredFieldsMissing);
      }
      if store.ExistsByEmail(request.email.value) {
        return Thrown(EmailAlreadyExists);
      }
      var hash := encode(request.password.value);
      var id := store.Insert(request.email.value, request.firstName, request.lastName, hash);
      assert store.PasswordsEncodedBy(encode) by {
        forall k | k in store.users
          ensures exists raw :: store.users[k].password == encode(raw)
        {
          if k == id {
            assert store.users[k].password == encode(request.password.value);
          } else {
            assert store.users[k] == old(store.users)[k];
          }
        }
      }
      r := Ok(ApiResponse(true, "User registered successfully", None));
    }

    /**
     * `verifyToken`: succeeds with no payload exactly when the validator
     * returns; its exception otherwise. Whatever the validator returns is
     * discarded.
     */
    function VerifyToken(token: string): (r: Result<ApiResponse<()>>)
      ensures r.Ok? <==> validateToken(token).None?
      ensures r.Ok? ==> r.value == ApiResponse(true, "Token verified successfully", None)
      ensures r.Thrown? ==> r.exception == validateToken(token).value
    {
      match validateToken(token)
      case Some(e) => Thrown(e)
      case None => Ok(ApiResponse(true, "Token verified successfully", None))
    }
  }
}

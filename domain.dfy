/**
 * Values shared by the account and authentication workflows: the optional
 * value that stands for Java's `null`, the response envelope, the exceptions
 * the workflows throw, and the stored user entity.
 */
module Domain {

  /** A value that may be absent; `None` stands for a Java `null`. */
  datatype Option<+T> = None | Some(value: T)

  /** The uniform response envelope `{success, message, data}`; `data == None` is a null payload. */
  datatype ApiResponse<+T> = ApiResponse(success: bool, message: string, data: Option<T>)

  /**
   * The class of a thrown exception. The two classes the workflows throw
   * themselves are named; any other exception (one raised by a collaborator)
   * carries its own class followed by its superclasses, nearest first.
   */
  datatype ExceptionClass =
    | IllegalArgumentException
    | UserNotFoundException
    | OtherClass(ancestry: seq<string>)

  datatype Exception = Exception(cls: ExceptionClass, message: string)

  /** The outcome of a workflow call: a value, or the exception it throws. */
  datatype Result<+T> = Ok(value: T) | Thrown(exception: Exception)

  /** What every account operation throws for an absent id or email. */
  const UserNotFound: Exception := Exception(UserNotFoundException, "User not found")

  /**
   * A stored user. `password` holds the encoded password; the names may be
   * null because a profile update copies whatever the request carries.
   */
  datatype User = User(
    id: nat,
    email: string,
    firstName: Option<string>,
    lastName: Option<string>,
    password: string)
}

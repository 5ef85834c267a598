/**
 * The global exception handler: three handlers, declared for
 * ResourceNotFoundException (404), IllegalArgumentException (400) and
 * Exception (500). A thrown exception goes to the handler declared for the
 * nearest class in its ancestry, and every handler answers the envelope
 * `{success = false, message = the exception's message, data = null}`.
 */
module ExceptionHandling {
  import opened Domain

  const NotFound: int := 404
  const BadRequest: int := 400
  const InternalServerError: int := 500

  const ResourceNotFoundClass := "ResourceNotFoundException"
  const IllegalArgumentClass := "IllegalArgumentException"
  const GenericExceptionClass := "Exception"

  /** The superclass chain of the standard IllegalArgumentException, itself first. */
  const IllegalArgumentAncestry := [IllegalArgumentClass, "RuntimeException", GenericExceptionClass, "Throwable", "Object"]

  datatype Handler = ResourceNotFoundHandler | IllegalArgumentHandler | GlobalHandler

  datatype ResponseEntity = ResponseEntity(body: ApiResponse<string>, status: int)

  /** The class named in the handler's `@ExceptionHandler` annotation. */
  function HandledClass(handler: Handler): string
  {
    match handler
    case ResourceNotFoundHandler => ResourceNotFoundClass
    case IllegalArgumentHandler => IllegalArgumentClass
    case GlobalHandler => GenericExceptionClass
  }

  /** The handler declared for exactly this class, if there is one. */
  function DeclaredHandler(className: string): (h: Option<Handler>)
    ensures h.Some? <==> exists handler :: HandledClass(handler) == className
    ensures h.Some? ==> HandledClass(h.value) == className
  {
    if className == HandledClass(ResourceNotFoundHandler) then Some(ResourceNotFoundHandler)
    else if className == HandledClass(IllegalArgumentHandler) then Some(IllegalArgumentHandler)
    else if className == HandledClass(GlobalHandler) then Some(GlobalHandler)
    else None
  }

  /** The handler of the nearest class in `ancestry` that has one. */
  function Resolve(ancestry: seq<string>): (h: Option<Handler>)
    ensures h.None? <==> forall i :: 0 <= i < |ancestry| ==> DeclaredHandler(ancestry[i]).None?
    ensures h.Some? ==>
              exists k :: && 0 <= k < |ancestry| && DeclaredHandler(ancestry[k]) == h
                          && forall j :: 0 <= j < k ==> DeclaredHandler(ancestry[j]).None?
  {
    if ancestry == [] then None
    else if DeclaredHandler(ancestry[0]).Some? then DeclaredHandler(ancestry[0])
    else Resolve(ancestry[1..])
  }

  /**
   * The class of `cls` followed by its superclasses. That of
   * UserNotFoundException is not part of this model, so it is a parameter.
   */
  function Ancestry(cls: ExceptionClass, userNotFoundSupers: seq<string>): seq<string>
  {
    match cls
    case IllegalArgumentException => IllegalArgumentAncestry
    case UserNotFoundException => ["UserNotFoundException"] + userNotFoundSupers
    case OtherClass(ancestry) => ancestry
  }

  /** The HTTP status a handler answers with, decided by the class it handles. */
  function Status(handler: Handler): (r: int)
    ensures r == NotFound <==> HandledClass(handler) == ResourceNotFoundClass
    ensures r == BadRequest <==> HandledClass(handler) == IllegalArgumentClass
    ensures r == InternalServerError <==> HandledClass(handler) == GenericExceptionClass
  {
    match handler
    case ResourceNotFoundHandler => NotFound
    case IllegalArgumentHandler => BadRequest
    case GlobalHandler => InternalServerError
  }

  /** The response to `ex`, or `None` when no handler applies. */
  function HandleException(ex: Exception, userNotFoundSupers: seq<string>): (r: Option<ResponseEntity>)
    ensures r.Some? <==> exists i :: 0 <= i < |Ancestry(ex.cls, userNotFoundSupers)|
                                     && DeclaredHandler(Ancestry(ex.cls, userNotFoundSupers)[i]).Some?
    ensures r.Some? ==> r.value.body == ApiResponse(false, ex.message, None)
    ensures r.Some? ==> r.value.status == NotFound || r.value.status == BadRequest || r.value.status == InternalServerError
  {
    match Resolve(Ancestry(ex.cls, userNotFoundSupers))
    case None => None
    case Some(handler) => Some(ResponseEntity(ApiResponse(false, ex.message, None), Status(handler)))
  }

  /** The handler of the nearest handled class decides the response, whatever lies beyond it. */
  lemma NearestHandledClassDecides(ex: Exception, userNotFoundSupers: seq<string>, k: nat)
    requires k < |Ancestry(ex.cls, userNotFoundSupers)|
    requires DeclaredHandler(Ancestry(ex.cls, userNotFoundSupers)[k]).Some?
    requires forall j :: 0 <= j < k ==> DeclaredHandler(Ancestry(ex.cls, userNotFoundSupers)[j]).None?
    ensures HandleException(ex, userNotFoundSupers)
            == Some(ResponseEntity(ApiResponse(false, ex.message, None),
                                   Status(DeclaredHandler(Ancestry(ex.cls, userNotFoundSupers)[k]).value)))
  {
  }

  /** A ResourceNotFoundException, or a subclass with no handler nearer, is answered with 404. */
  lemma ResourceNotFoundIsNotFound(ancestry: seq<string>, message: string, k: nat)
    requires k < |ancestry| && ancestry[k] == ResourceNotFoundClass
    requires forall j :: 0 <= j < k ==> DeclaredHandler(ancestry[j]).None?
    ensures HandleException(Exception(OtherClass(ancestry), message), [])
            == Some(ResponseEntity(ApiResponse(false, message, None), NotFound))
  {
  }

  /**
   * An IllegalArgumentException is answered with 400, not with the 500 of
   * Exception, though Exception is one of its superclasses.
   */
  lemma IllegalArgumentIsBadRequest(message: string, userNotFoundSupers: seq<string>)
    ensures GenericExceptionClass in Ancestry(IllegalArgumentException, userNotFoundSupers)
    ensures HandleException(Exception(IllegalArgumentException, message), userNotFoundSupers)
            == Some(ResponseEntity(ApiResponse(false, message, None), BadRequest))
  {
  }

  /** Any other exception, one that is neither of the two handled kinds, is answered with 500. */
  lemma OtherExceptionIsInternalError(ancestry: seq<string>, message: string)
    requires GenericExceptionClass in ancestry
    requires ResourceNotFoundClass !in ancestry && IllegalArgumentClass !in ancestry
    ensures HandleException(Exception(OtherClass(ancestry), message), [])
            == Some(ResponseEntity(ApiResponse(false, message, None), InternalServerError))
  {
  }

  /**
   * UserNotFoundException has no handler of its own: it is answered as its
   * nearest handled superclass is, 404 when that is ResourceNotFoundException,
   * 500 when it extends RuntimeException directly.
   */
  lemma UserNotFoundFollowsItsSuperclass(message: string, userNotFoundSupers: seq<string>)
    ensures HandleException(Exception(UserNotFoundException, message), userNotFoundSupers)
            == HandleException(Exception(OtherClass(userNotFoundSupers), message), [])
    ensures |userNotFoundSupers| > 0 && userNotFoundSupers[0] == ResourceNotFoundClass ==>
              HandleException(Exception(UserNotFoundException, message), userNotFoundSupers)
              == Some(ResponseEntity(ApiResponse(false, message, None), NotFound))
    ensures userNotFoundSupers == ["RuntimeException", GenericExceptionClass, "Throwable", "Object"] ==>
              HandleException(Exception(UserNotFoundException, message), userNotFoundSupers)
              == Some(ResponseEntity(ApiResponse(false, message, None), InternalServerError))
  {
    var a := Ancestry(UserNotFoundException, userNotFoundSupers);
    assert a[1..] == userNotFoundSupers;
    if |userNotFoundSupers| > 0 && userNotFoundSupers[0] == ResourceNotFoundClass {
      NearestHandledClassDecides(Exception(UserNotFoundException, message), userNotFoundSupers, 1);
    }
    if userNotFoundSupers == ["RuntimeException", GenericExceptionClass, "Throwable", "Object"] {
      NearestHandledClassDecides(Exception(UserNotFoundException, message), userNotFoundSupers, 2);
    }
  }
}

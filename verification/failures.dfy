/** The exceptions the library raises, as one closed datatype, and the
    numeric server error codes of the protocol (Enums.cs, Exceptions.cs). */
module Failures {

  import opened Wrappers

  /** `ServerError` in Enums.cs. The exception casts the raw code straight to
      the enum, so a code that names no member survives the cast as an
      unnamed value; `Unnamed` keeps it. */
  datatype ServerError =
    | Unknown
    | InvalidPrincipal
    | NicknameChangeIllegal
    | PrincipalListFull
    | PrincipalAlreadyOnList
    | PrincipalNotOnList
    | PrincipalNotOnline
    | AlreadyInMode
    | TooManyGroups
    | InvalidGroup
    | PrincipalNotInGroup
    | InternalServerError
    | ChallengeResponseFailed
    | ServerIsUnavailable
    | CallingTooRapidly
    | IllegalPropertyValue
    | ChangingTooRapidly
    | ServerTooBusy
    | AuthenticationFailed
    | Unnamed(code: int)

  /** The numeric value of an enum member. */
  function CodeOf(e: ServerError): int {
    match e
    case Unknown => 0
    case InvalidPrincipal => 205
    case NicknameChangeIllegal => 209
    case PrincipalListFull => 210
    case PrincipalAlreadyOnList => 215
    case PrincipalNotOnList => 216
    case PrincipalNotOnline => 217
    case AlreadyInMode => 218
    case TooManyGroups => 223
    case InvalidGroup => 224
    case PrincipalNotInGroup => 225
    case InternalServerError => 500
    case ChallengeResponseFailed => 540
    case ServerIsUnavailable => 601
    case CallingTooRapidly => 713
    case IllegalPropertyValue => 715
    case ChangingTooRapidly => 800
    case ServerTooBusy => 910
    case AuthenticationFailed => 911
    case Unnamed(c) => c
  }

  /** The member a code names, if any. */
  function NamedMember(code: int): Option<ServerError> {
    match code
    case 0 => Some(Unknown)
    case 205 => Some(InvalidPrincipal)
    case 209 => Some(NicknameChangeIllegal)
    case 210 => Some(PrincipalListFull)
    case 215 => Some(PrincipalAlreadyOnList)
    case 216 => Some(PrincipalNotOnList)
    case 217 => Some(PrincipalNotOnline)
    case 218 => Some(AlreadyInMode)
    case 223 => Some(TooManyGroups)
    case 224 => Some(InvalidGroup)
    case 225 => Some(PrincipalNotInGroup)
    case 500 => Some(InternalServerError)
    case 540 => Some(ChallengeResponseFailed)
    case 601 => Some(ServerIsUnavailable)
    case 713 => Some(CallingTooRapidly)
    case 715 => Some(IllegalPropertyValue)
    case 800 => Some(ChangingTooRapidly)
    case 910 => Some(ServerTooBusy)
    case 911 => Some(AuthenticationFailed)
    case _ => None
  }

  /** A well-formed enum value: an unnamed value never carries a named code. */
  predicate Canonical(e: ServerError) {
    e.Unnamed? ==> NamedMember(e.code).None?
  }

  /** The `(ServerError)errorCode` cast of Exceptions.cs:15. */
  function CastToServerError(code: int): (e: ServerError)
    ensures CodeOf(e) == code
    ensures Canonical(e)
  {
    match NamedMember(code)
    case Some(m) => m
    case None => Unnamed(code)
  }

  /** Casting back and forth loses nothing: the cast is a bijection between
      codes and canonical enum values. */
  lemma CastIsBijective(e: ServerError)
    requires Canonical(e)
    ensures CastToServerError(CodeOf(e)) == e
  {
  }

  /** The exceptions thrown by the modelled code. */
  datatype Failure =
    | ArgumentNull              // ArgumentNullException
    | ArgumentOutOfRange        // ArgumentOutOfRangeException (Substring, List indexer)
    | Argument                  // ArgumentException
    | InvalidOperation          // InvalidOperationException
    | ObjectDisposed            // ObjectDisposedException
    | NotLoggedIn               // NotLoggedInException
    | NotSupported              // NotSupportedException
    | NotImplemented            // NotImplementedException (Command base class)
    | KeyNotFound               // KeyNotFoundException (dictionary indexer)
    | NullReference             // NullReferenceException
    | IndexOutOfRange           // IndexOutOfRangeException (array indexing)
    | Format                    // FormatException (Int32.Parse)
    | Overflow                  // OverflowException (Int32.Parse)
    | ServerFailure(error: ServerError, errorCode: int)   // ServerErrorException
    | Timeout                   // TimeoutException from a response wait
    | ConnectionFailure         // ConnectionErrorException
    | UserAlreadyExists
    | NoParticipants
    | UserNotOnline
    | MessageDeliveryFailed
    | ChangingTooRapidlyFailure  // ChangingTooRapidlyException
    | ProtocolNotAccepted

  /** `new ServerErrorException(errorCode)`. */
  function ServerErrorException(code: int): (f: Failure)
    ensures f.ServerFailure? && f.errorCode == code
    ensures CodeOf(f.error) == code
  {
    ServerFailure(CastToServerError(code), code)
  }
}

/** The enumerations of Enums.cs that the roster and the conversations use,
    and the identities of the library's reference objects. */
module Enums {

  datatype LogoutReason = InitiatedByUser | LoggedInElsewhere | ServerShuttingDown | ConnectionError

  datatype MessageOption = NoAcknowledgement | Acknowledgement | NegativeAcknowledgementOnly | Data

  datatype PrivacySetting = AcceptInvitations | AddUsers

  datatype UserStatus = Offline | Online | Away | Busy | BeRightBack | Lunch | Phone | Invisible | Idle

  datatype UserProperty =
    | HomePhone | WorkPhone | MobilePhone | AuthorizedMobile | MobileDevice | MSNDirectDevice | HasBlog

  /** The five `UserList` subclasses of UserLists.cs. */
  datatype ListKind = AllowList | BlockList | ForwardList | ReverseList | PendingList

  /** A `User` object: its place in the client's table of every user
      created so far. Two ids are the same object exactly when equal. */
  type UserId = nat

  /** A `Group` object, likewise. */
  type GroupId = nat

  /** `UserCapabilities` is a `[Flags]` enum over `uint`. */
  predicate IsCapabilities(c: int) {
    0 <= c < 0x1_0000_0000
  }
}

/** The event payloads of EventArgs.cs and the events that carry them.
    Every constructor is modelled with the arguments the library passes;
    several of them assign `LoginEvent = LoginEvent` (the property to
    itself) instead of the parameter, so their flag stays false. */
module Events {

  import opened Wrappers
  import opened Failures
  import opened Enums
  import opened Users
  import Messages

  /** An `IMSession` object: its place in the table of sessions. */
  type SessionId = nat

  /** An `IMSessionInvitation` object. */
  type InvitationId = nat

  datatype EventArgs =
    | Empty                                   // EventArgs.Empty
    | ServerNotificationEventArgs(notice: string)
    | PrivacySettingEventArgs(setting: PrivacySetting, value: string, loginEvent: bool)
    | LoggedOutEventArgs(reason: LogoutReason, connectionError: Option<Failure>)
    | UserBroadcastEventArgs(user: UserId, notice: string)
    | UserNicknameEventArgs(user: UserId, nickname: Option<string>, previousNickname: Option<string>, loginEvent: bool)
    | UserStatusEventArgs(user: UserId, status: UserStatus, previousStatus: UserStatus, loginEvent: bool)
    | UserDisplayPictureEventArgs(user: UserId, displayPicture: MSNObject, loginEvent: bool)
    | UserCapabilitiesEventArgs(user: UserId, capabilities: nat, loginEvent: bool)
    | UserPropertyEventArgs(user: UserId, property: UserProperty, value: string, loginEvent: bool)
    | IMSessionEventArgs(session: SessionId, invitation: Option<InvitationId>)
    | InvitationEventArgs(invited: InvitationId)
    | UserListUserEventArgs(user: UserId, list: ListKind, loginEvent: bool)
    | GroupUserEventArgs(user: UserId, group: GroupId, loginEvent: bool)
    | GroupNameEventArgs(group: GroupId, name: string, previousName: string, loginEvent: bool)
    | GroupEventArgs(group: GroupId, loginEvent: bool)
    | UserEventArgs(user: UserId)
    | MessageEventArgs(sender: Option<UserId>, content: Messages.Message,
                       senderLoginName: Option<string>, senderNickname: Option<string>, loginEvent: bool)

  /** The `event` members of `MessengerClient` and `IMSession`. */
  datatype EventName =
    | LoggedIn | LoggedOut | Closed
    | UserStatusChanged | UserNicknameChanged | UserDisplayPictureChanged
    | UserCapabilitiesChanged | UserPropertyChanged | PrivacySettingChanged
    | UserAddedToList | UserRemovedFromList | UserAddedToGroup | UserRemovedFromGroup
    | GroupAdded | GroupRemoved | GroupNameChanged
    | MessageReceived | IMSessionCreated
    | UserJoined | UserParted

  /** One raised event: which event, with which payload. */
  datatype Raised = Raised(name: EventName, args: EventArgs)

  // Constructors that keep their `loginEvent` argument.

  function NewUserStatusEventArgs(user: UserId, status: UserStatus, previous: UserStatus, loginEvent: bool): (e: EventArgs)
    ensures e.UserStatusEventArgs? && e.loginEvent == loginEvent
    ensures e.user == user && e.status == status && e.previousStatus == previous
  {
    UserStatusEventArgs(user, status, previous, loginEvent)
  }

  function NewGroupUserEventArgs(user: UserId, group: GroupId, loginEvent: bool): (e: EventArgs)
    ensures e.GroupUserEventArgs? && e.loginEvent == loginEvent
    ensures e.user == user && e.group == group
  {
    GroupUserEventArgs(user, group, loginEvent)
  }

  /** The four-argument `MessageEventArgs`: login name and nickname are
      set, `Sender` is left null. */
  function NewLoginMessageEventArgs(loginName: string, nickname: string, content: Messages.Message, loginEvent: bool): (e: EventArgs)
    ensures e.MessageEventArgs? && e.loginEvent == loginEvent && e.sender.None?
    ensures e.senderLoginName == Some(loginName) && e.senderNickname == Some(nickname) && e.content == content
  {
    MessageEventArgs(None, content, Some(loginName), Some(nickname), loginEvent)
  }

  /** The two-argument `MessageEventArgs`: `Sender` and `Message` only. */
  function NewMessageEventArgs(user: UserId, content: Messages.Message): (e: EventArgs)
    ensures e.MessageEventArgs? && !e.loginEvent && e.sender == Some(user)
    ensures e.senderLoginName.None? && e.senderNickname.None? && e.content == content
  {
    MessageEventArgs(Some(user), content, None, None, false)
  }

  // Constructors that drop their `loginEvent` argument.

  function NewPrivacySettingEventArgs(setting: PrivacySetting, value: string, loginEvent: bool): (e: EventArgs)
    ensures e.PrivacySettingEventArgs? && !e.loginEvent
    ensures e.setting == setting && e.value == value
  {
    PrivacySettingEventArgs(setting, value, false)
  }

  function NewUserNicknameEventArgs(user: UserId, nickname: Option<string>, previous: Option<string>, loginEvent: bool): (e: EventArgs)
    ensures e.UserNicknameEventArgs? && !e.loginEvent
    ensures e.user == user && e.nickname == nickname && e.previousNickname == previous
  {
    UserNicknameEventArgs(user, nickname, previous, false)
  }

  function NewUserDisplayPictureEventArgs(user: UserId, picture: MSNObject, loginEvent: bool): (e: EventArgs)
    ensures e.UserDisplayPictureEventArgs? && !e.loginEvent
    ensures e.user == user && e.displayPicture == picture
  {
    UserDisplayPictureEventArgs(user, picture, false)
  }

  function NewUserCapabilitiesEventArgs(user: UserId, capabilities: nat, loginEvent: bool): (e: EventArgs)
    ensures e.UserCapabilitiesEventArgs? && !e.loginEvent
    ensures e.user == user && e.capabilities == capabilities
  {
    UserCapabilitiesEventArgs(user, capabilities, false)
  }

  function NewUserPropertyEventArgs(user: UserId, property: UserProperty, value: string, loginEvent: bool): (e: EventArgs)
    ensures e.UserPropertyEventArgs? && !e.loginEvent
    ensures e.user == user && e.property == property && e.value == value
  {
    UserPropertyEventArgs(user, property, value, false)
  }

  function NewUserListUserEventArgs(user: UserId, list: ListKind, loginEvent: bool): (e: EventArgs)
    ensures e.UserListUserEventArgs? && !e.loginEvent
    ensures e.user == user && e.list == list
  {
    UserListUserEventArgs(user, list, false)
  }

  function NewGroupNameEventArgs(group: GroupId, name: string, previous: string, loginEvent: bool): (e: EventArgs)
    ensures e.GroupNameEventArgs? && !e.loginEvent
    ensures e.group == group && e.name == name && e.previousName == previous
  {
    GroupNameEventArgs(group, name, previous, false)
  }

  function NewGroupEventArgs(group: GroupId, loginEvent: bool): (e: EventArgs)
    ensures e.GroupEventArgs? && !e.loginEvent
    ensures e.group == group
  {
    GroupEventArgs(group, false)
  }

  /** `LoggedOutEventArgs` carries exactly its two arguments. */
  function NewLoggedOutEventArgs(reason: LogoutReason, connectionError: Option<Failure>): (e: EventArgs)
    ensures e.LoggedOutEventArgs? && e.reason == reason && e.connectionError == connectionError
  {
    LoggedOutEventArgs(reason, connectionError)
  }

  /** Whether the flag of a payload can ever be true: only the payloads
      whose constructors keep the argument. */
  lemma LoginEventFlags(user: UserId, group: GroupId, list: ListKind, setting: PrivacySetting,
                        property: UserProperty, status: UserStatus, s: string, n: Option<string>,
                        picture: MSNObject, capabilities: nat, content: Messages.Message)
    ensures NewUserStatusEventArgs(user, status, status, true).loginEvent
    ensures NewGroupUserEventArgs(user, group, true).loginEvent
    ensures NewLoginMessageEventArgs(s, s, content, true).loginEvent
    ensures !NewPrivacySettingEventArgs(setting, s, true).loginEvent
    ensures !NewUserNicknameEventArgs(user, n, n, true).loginEvent
    ensures !NewUserDisplayPictureEventArgs(user, picture, true).loginEvent
    ensures !NewUserCapabilitiesEventArgs(user, capabilities, true).loginEvent
    ensures !NewUserPropertyEventArgs(user, property, s, true).loginEvent
    ensures !NewUserListUserEventArgs(user, list, true).loginEvent
    ensures !NewGroupNameEventArgs(group, s, s, true).loginEvent
    ensures !NewGroupEventArgs(group, true).loginEvent
  {
  }
}

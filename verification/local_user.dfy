/** The `LocalUser` operations of Users.cs: each validates its arguments,
    checks the client, writes one command, and on the server's reply
    updates the local user and raises one event. `self` is the `LocalUser`
    object the call is made on; `reply` is what the response wait yields. */
module LocalUserOps {

  import opened Wrappers
  import opened Failures
  import opened Text
  import opened Enums
  import opened Users
  import opened Events
  import opened Roster
  import C = Commands

  /** The `catch (ServerErrorException)` of `ChangeNicknameAsync`. */
  function NicknameFailure(f: Failure): (g: Failure)
    ensures f.ServerFailure? && f.error == NicknameChangeIllegal ==> g == Argument
    ensures f.ServerFailure? && f.error == ChangingTooRapidly ==> g == ChangingTooRapidlyFailure
    ensures !(f.ServerFailure? && f.error in {NicknameChangeIllegal, ChangingTooRapidly}) ==> g == f
  {
    if f.ServerFailure? && f.error == NicknameChangeIllegal then Argument
    else RapidFailure(f)
  }

  /** The `catch (ServerErrorException)` of the status, capability and
      picture changes. */
  function RapidFailure(f: Failure): (g: Failure)
    ensures f.ServerFailure? && f.error == ChangingTooRapidly ==> g == ChangingTooRapidlyFailure
    ensures !(f.ServerFailure? && f.error == ChangingTooRapidly) ==> g == f
  {
    if f.ServerFailure? && f.error == ChangingTooRapidly then ChangingTooRapidlyFailure else f
  }

  /** The picture token of `CHG` as the capability and picture changes (and
      the login) write it: `"0"` for the empty object. */
  function PictureToken(o: MSNObject): (s: string)
    ensures o == EmptyObject ==> s == "0"
    ensures o != EmptyObject ==> Some(s) == ObjectToString(o)
  {
    if o.data.None? then "0" else o.data.value
  }

  /** The local user's state replaced, and nothing else. */
  function WithUser(c: Client, id: UserId, u: User): (r: Client)
    requires id < |c.users|
    ensures |r.users| == |c.users| && r.users[id] == u
    ensures forall j :: 0 <= j < |c.users| && j != id ==> r.users[j] == c.users[j]
    ensures r.(users := c.users) == c
    ensures Valid(c) ==> Valid(r)
  {
    ValidAfterUserUpdate(c, id, u);
    c.(users := c.users[id := u])
  }

  // ------------------------------------------------------------- nickname

  /** Whether `ChangeNicknameAsync` gets as far as writing `PRP MFN`. */
  predicate NicknameAccepted(c: Client, self: UserId, nickname: Option<string>)
    requires self < |c.users|
  {
    nickname.Some? && nickname.value != "" && |Utf8Encode(nickname.value)| <= 387 &&
    Ready(c).Pass? && nickname != c.users[self].nickname
  }

  /** `LocalUser.ChangeNicknameAsync`: the nickname changes only after the
      server has confirmed it. */
  function ChangeNickname(c: Client, self: UserId, nickname: Option<string>, reply: Outcome<Failure>): (r: Step)
    requires self < |c.users|
    ensures r.sent.Some? <==> NicknameAccepted(c, self, nickname)
    ensures r.sent.Some? ==> r.sent == Some(C.LocalProperty("MFN", nickname.value))
    ensures r.result.Ok? <==> NicknameAccepted(c, self, nickname) && reply.Pass?
    ensures nickname.None? || nickname == Some("") ==> r.result == Err(ArgumentNull)
    ensures nickname.Some? && nickname.value != "" && |Utf8Encode(nickname.value)| > 387 ==>
      r.result == Err(Argument)
    ensures NicknameAccepted(c, self, nickname) && reply.Fail? ==>
      r.result == Err(NicknameFailure(reply.error))
    ensures r.result.Ok? ==>
      r.result.value.client == WithUser(c, self, c.users[self].(nickname := nickname)) &&
      r.result.value.events ==
        [Raised(UserNicknameChanged, UserNicknameEventArgs(self, nickname, c.users[self].nickname, false))]
  {
    if nickname.None? || nickname.value == "" then Reject(ArgumentNull)
    else if |Utf8Encode(nickname.value)| > 387 then Reject(Argument)
    else if Ready(c).Fail? then Reject(Ready(c).error)
    else if nickname == c.users[self].nickname then Reject(Argument)
    else
      var sent := Some(C.LocalProperty("MFN", nickname.value));
      match reply
      case Fail(f) => Step(sent, Err(NicknameFailure(f)))
      case Pass =>
        var prev := c.users[self].nickname;
        Step(sent, Ok(Effect(WithUser(c, self, c.users[self].(nickname := nickname)),
                             [Raised(UserNicknameChanged, NewUserNicknameEventArgs(self, nickname, prev, false))])))
  }

  // --------------------------------------------------------------- status

  predicate StatusAccepted(c: Client, self: UserId, status: UserStatus)
    requires self < |c.users|
  {
    status != Offline && Ready(c).Pass? && status != c.users[self].status
  }

  /** `LocalUser.ChangeStatusAsync`: `Offline` and the current status are
      refused; the event carries the previous status. */
  function ChangeStatus(c: Client, self: UserId, status: UserStatus, reply: Outcome<Failure>): (r: Step)
    requires self < |c.users|
    ensures r.sent.Some? <==> StatusAccepted(c, self, status)
    ensures r.result.Ok? <==> StatusAccepted(c, self, status) && reply.Pass?
    ensures status == Offline ==> r.result == Err(Argument)
    ensures r.sent.Some? ==>
      var u := c.users[self];
      r.sent == Some(C.ChangeStatus(StatusToString(status).value, u.capabilities, ObjectToString(u.displayPicture)))
    ensures StatusAccepted(c, self, status) && reply.Fail? ==> r.result == Err(RapidFailure(reply.error))
    ensures r.result.Ok? ==>
      r.result.value.client == WithUser(c, self, c.users[self].(status := status)) &&
      r.result.value.events ==
        [Raised(UserStatusChanged, UserStatusEventArgs(self, status, c.users[self].status, false))]
  {
    if status == Offline then Reject(Argument)
    else if Ready(c).Fail? then Reject(Ready(c).error)
    else if status == c.users[self].status then Reject(Argument)
    else
      var u := c.users[self];
      var sent := Some(C.ChangeStatus(StatusToString(status).value, u.capabilities, ObjectToString(u.displayPicture)));
      match reply
      case Fail(f) => Step(sent, Err(RapidFailure(f)))
      case Pass =>
        Step(sent, Ok(Effect(WithUser(c, self, u.(status := status)),
                             [Raised(UserStatusChanged, NewUserStatusEventArgs(self, status, u.status, false))])))
  }

  // --------------------------------------------------------- capabilities

  predicate CapabilitiesAccepted(c: Client, self: UserId, capabilities: nat)
    requires self < |c.users|
  {
    Ready(c).Pass? && capabilities != c.users[self].capabilities && c.users[self].status != Offline
  }

  /** `LocalUser.ChangeCapabilitiesAsync`. The command repeats the current
      status, so a local user whose status is `Offline` (a login with
      `Offline` as initial status) cannot change capabilities. */
  function ChangeCapabilities(c: Client, self: UserId, capabilities: nat, reply: Outcome<Failure>): (r: Step)
    requires self < |c.users| && IsCapabilities(capabilities)
    ensures r.sent.Some? <==> CapabilitiesAccepted(c, self, capabilities)
    ensures r.result.Ok? <==> CapabilitiesAccepted(c, self, capabilities) && reply.Pass?
    ensures Ready(c).Pass? && capabilities != c.users[self].capabilities && c.users[self].status == Offline ==>
      r.result == Err(NotSupported)
    ensures r.sent.Some? ==>
      var u := c.users[self];
      r.sent == Some(C.ChangeStatus(StatusToString(u.status).value, capabilities, Some(PictureToken(u.displayPicture))))
    ensures CapabilitiesAccepted(c, self, capabilities) && reply.Fail? ==> r.result == Err(RapidFailure(reply.error))
    ensures r.result.Ok? ==>
      r.result.value.client == WithUser(c, self, c.users[self].(capabilities := capabilities)) &&
      r.result.value.events ==
        [Raised(UserCapabilitiesChanged, UserCapabilitiesEventArgs(self, capabilities, false))]
  {
    if Ready(c).Fail? then Reject(Ready(c).error)
    else if capabilities == c.users[self].capabilities then Reject(Argument)
    else
      var u := c.users[self];
      match StatusToString(u.status)
      case Err(e) => Reject(e)
      case Ok(code) =>
        var sent := Some(C.ChangeStatus(code, capabilities, Some(PictureToken(u.displayPicture))));
        match reply
        case Fail(f) => Step(sent, Err(RapidFailure(f)))
        case Pass =>
          Step(sent, Ok(Effect(WithUser(c, self, u.(capabilities := capabilities)),
                               [Raised(UserCapabilitiesChanged, NewUserCapabilitiesEventArgs(self, capabilities, false))])))
  }

  // -------------------------------------------------------------- picture

  predicate PictureAccepted(c: Client, self: UserId, picture: MSNObject)
    requires self < |c.users|
  {
    Ready(c).Pass? && !ObjectEquals(picture, c.users[self].displayPicture) && c.users[self].status != Offline
  }

  /** `LocalUser.ChangeDisplayPictureAsync`. */
  function ChangeDisplayPicture(c: Client, self: UserId, picture: MSNObject, reply: Outcome<Failure>): (r: Step)
    requires self < |c.users|
    ensures r.sent.Some? <==> PictureAccepted(c, self, picture)
    ensures r.result.Ok? <==> PictureAccepted(c, self, picture) && reply.Pass?
    ensures r.sent.Some? ==>
      var u := c.users[self];
      r.sent == Some(C.ChangeStatus(StatusToString(u.status).value, u.capabilities, Some(PictureToken(picture))))
    ensures PictureAccepted(c, self, picture) && reply.Fail? ==> r.result == Err(RapidFailure(reply.error))
    ensures r.result.Ok? ==>
      r.result.value.client == WithUser(c, self, c.users[self].(displayPicture := picture)) &&
      r.result.value.events ==
        [Raised(UserDisplayPictureChanged, UserDisplayPictureEventArgs(self, picture, false))]
  {
    if Ready(c).Fail? then Reject(Ready(c).error)
    else if ObjectEquals(picture, c.users[self].displayPicture) then Reject(Argument)
    else
      var u := c.users[self];
      match StatusToString(u.status)
      case Err(e) => Reject(e)
      case Ok(code) =>
        var sent := Some(C.ChangeStatus(code, u.capabilities, Some(PictureToken(picture))));
        match reply
        case Fail(f) => Step(sent, Err(RapidFailure(f)))
        case Pass =>
          Step(sent, Ok(Effect(WithUser(c, self, u.(displayPicture := picture)),
                               [Raised(UserDisplayPictureChanged, NewUserDisplayPictureEventArgs(self, picture, false))])))
  }

  // ------------------------------------------------------------ broadcast

  /** `LocalUser.BroadcastAsync`: the length test comes first, so a null
      message dereferences null; nothing changes on success. The limit is
      on the message's UTF-16 length. The command's second argument is
      never set; the empty string stands for it. */
  function Broadcast(c: Client, message: Option<string>, reply: Outcome<Failure>): (r: Step)
    ensures message.None? ==> r == Reject(NullReference)
    ensures message.Some? && Utf16Length(message.value) >= 999 ==> r == Reject(Argument)
    ensures message == Some("") ==> r == Reject(ArgumentNull)
    ensures r.sent.Some? <==> message.Some? && 0 < |message.value| && Utf16Length(message.value) < 999 && Ready(c).Pass?
    ensures r.sent.Some? ==> r.sent == Some(C.SendBroadcast(message.value, ""))
    ensures r.result.Ok? <==> r.sent.Some? && reply.Pass?
    ensures r.result.Ok? ==> r.result.value == Effect(c, [])
  {
    if message.None? then Reject(NullReference)
    else if Utf16Length(message.value) >= 999 then Reject(Argument)
    else if message.value == "" then Reject(ArgumentNull)
    else if Ready(c).Fail? then Reject(Ready(c).error)
    else
      var sent := Some(C.SendBroadcast(message.value, ""));
      match reply
      case Fail(f) => Step(sent, Err(f))
      case Pass => Step(sent, Ok(Effect(c, [])))
  }

  /** Five hundred characters outside the Basic Multilingual Plane are a
      thousand UTF-16 units: the message is refused. */
  lemma BroadcastCountsUtf16Units(c: Client)
    ensures Broadcast(c, Some(seq(500, _ => '\U{1F600}')), Pass) == Reject(Argument)
  {
    Utf16LengthRepeat('\U{1F600}', 500);
  }

  // ------------------------------------------------------------- property

  const PhoneProperties: set<UserProperty> := {HomePhone, WorkPhone, MobilePhone}

  /** The argument checks `SetPropertyAsync` makes before taking the lock.
      `local` is `client.LocalUser`, which the authorized-mobile check
      dereferences. */
  function CheckPropertyValue(c: Client, p: UserProperty, value: Option<string>): (r: Outcome<Failure>)
    requires c.localUser.Some? ==> c.localUser.value < |c.users|
    ensures p in PhoneProperties && value.None? ==> r == Fail(ArgumentNull)
    ensures p in PhoneProperties && value.Some? ==> (r.Pass? <==> |Utf8Encode(value.value)| <= 95)
    ensures p == HasBlog ==> r == Fail(InvalidOperation)
    ensures p == MobileDevice ==> (r.Pass? <==> value in {Some(MobileDeviceEnabled), Some(MobileDeviceDisabled)})
    ensures p == MSNDirectDevice ==> (r.Pass? <==> value in {Some(MSNDirectDeviceEnabled), Some(MSNDirectDeviceDisabled)})
    ensures p == AuthorizedMobile ==>
      (r.Pass? <==> value == Some(AuthorizedMobileDisabled) ||
                    (value == Some(AuthorizedMobileEnabled) && c.localUser.Some? &&
                     GetProperty(c.users[c.localUser.value], MobileDevice) == MobileDeviceEnabled))
    ensures p == AuthorizedMobile && value == Some(AuthorizedMobileEnabled) && c.localUser.Some? &&
            GetProperty(c.users[c.localUser.value], MobileDevice) != MobileDeviceEnabled ==>
      r == Fail(InvalidOperation)
    ensures r.Pass? ==> value.Some?
  {
    if p in PhoneProperties && value.None? then Fail(ArgumentNull)
    else if p in PhoneProperties && |Utf8Encode(value.value)| > 95 then Fail(Argument)
    else if p == HasBlog then Fail(InvalidOperation)
    else if p == MobileDevice && value != Some(MobileDeviceEnabled) && value != Some(MobileDeviceDisabled) then
      Fail(Argument)
    else if p == AuthorizedMobile && value == Some(AuthorizedMobileEnabled) && c.localUser.None? then
      Fail(NullReference)
    else if p == AuthorizedMobile && value == Some(AuthorizedMobileEnabled) &&
            GetProperty(c.users[c.localUser.value], MobileDevice) != MobileDeviceEnabled then
      Fail(InvalidOperation)
    else if p == AuthorizedMobile && value != Some(AuthorizedMobileEnabled) && value != Some(AuthorizedMobileDisabled) then
      Fail(Argument)
    else if p == MSNDirectDevice && value != Some(MSNDirectDeviceEnabled) && value != Some(MSNDirectDeviceDisabled) then
      Fail(Argument)
    else
      assert p.HomePhone? || p.WorkPhone? || p.MobilePhone? || p.MobileDevice? || p.AuthorizedMobile? ||
             p.MSNDirectDevice?;
      Pass
  }

  predicate PropertyAccepted(c: Client, self: UserId, p: UserProperty, value: Option<string>)
    requires self < |c.users| && (c.localUser.Some? ==> c.localUser.value < |c.users|)
  {
    CheckPropertyValue(c, p, value).Pass? && Ready(c).Pass? &&
    value.value != GetProperty(c.users[self], p)
  }

  /** `LocalUser.SetPropertyAsync`: the value is written to
      `client.LocalUser` and the event names `self`. */
  function SetUserProperty(c: Client, self: UserId, p: UserProperty, value: Option<string>, reply: Outcome<Failure>): (r: Step)
    requires self < |c.users| && (c.localUser.Some? ==> c.localUser.value < |c.users|)
    ensures p == HasBlog ==> r == Reject(InvalidOperation)
    ensures r.sent.Some? <==> PropertyAccepted(c, self, p, value)
    ensures r.sent.Some? ==> r.sent == Some(C.LocalProperty(PropertyToString(p), value.value))
    ensures PropertyAccepted(c, self, p, value) && reply.Fail? ==> r.result == Err(reply.error)
    ensures r.result.Ok? <==> PropertyAccepted(c, self, p, value) && c.localUser.Some? && reply.Pass?
    ensures r.result.Ok? ==>
      var local := c.localUser.value;
      r.result.value.client == WithUser(c, local, SetProperty(c.users[local], p, value.value)) &&
      GetProperty(r.result.value.client.users[local], p) == value.value &&
      r.result.value.events == [Raised(UserPropertyChanged, UserPropertyEventArgs(self, p, value.value, false))]
  {
    var check := CheckPropertyValue(c, p, value);
    if check.Fail? then Reject(check.error)
    else if Ready(c).Fail? then Reject(Ready(c).error)
    else if value.value == GetProperty(c.users[self], p) then Reject(Argument)
    else
      var sent := Some(C.LocalProperty(PropertyToString(p), value.value));
      match reply
      case Fail(f) => Step(sent, Err(f))
      case Pass =>
        if c.localUser.None? then Step(sent, Err(NullReference)) else
        var local := c.localUser.value;
        Step(sent, Ok(Effect(WithUser(c, local, SetProperty(c.users[local], p, value.value)),
                             [Raised(UserPropertyChanged, NewUserPropertyEventArgs(self, p, value.value, false))])))
  }

  // ----------------------------------------------------------- repeats

  /** A confirmed nickname change makes the same request a refused no-op:
      nothing more is sent. */
  lemma RepeatedNicknameIsRefused(c: Client, self: UserId, nickname: Option<string>, reply: Outcome<Failure>)
    requires self < |c.users| && NicknameAccepted(c, self, nickname)
    ensures var c1 := ChangeNickname(c, self, nickname, Pass).result.value.client;
      self < |c1.users| && c1.users[self].nickname == nickname &&
      ChangeNickname(c1, self, nickname, reply) == Reject(Argument)
  {
    var c1 := ChangeNickname(c, self, nickname, Pass).result.value.client;
    assert Ready(c1) == Ready(c);
  }

  /** The same for a status change. */
  lemma RepeatedStatusIsRefused(c: Client, self: UserId, status: UserStatus, reply: Outcome<Failure>)
    requires self < |c.users| && StatusAccepted(c, self, status)
    ensures var c1 := ChangeStatus(c, self, status, Pass).result.value.client;
      self < |c1.users| && c1.users[self].status == status &&
      ChangeStatus(c1, self, status, reply) == Reject(Argument)
  {
    var c1 := ChangeStatus(c, self, status, Pass).result.value.client;
    assert Ready(c1) == Ready(c);
  }

  /** The same for a property of the local user: the value read back is
      the value just set, so a second request is refused. */
  lemma RepeatedPropertyIsRefused(c: Client, p: UserProperty, value: Option<string>, reply: Outcome<Failure>)
    requires c.localUser.Some? && c.localUser.value < |c.users|
    requires PropertyAccepted(c, c.localUser.value, p, value)
    ensures var self := c.localUser.value;
      var c1 := SetUserProperty(c, self, p, value, Pass).result.value.client;
      self < |c1.users| && c1.localUser == c.localUser &&
      SetUserProperty(c1, self, p, value, reply).sent.None?
  {
    var self := c.localUser.value;
    var c1 := SetUserProperty(c, self, p, value, Pass).result.value.client;
    assert Ready(c1) == Ready(c);
    assert GetProperty(c1.users[self], p) == value.value;
  }
}

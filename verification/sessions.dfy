/** A switchboard conversation, `IMSession` (IMSessions.cs): its participants,
    whether it is connected and whether it was closed, and the request
    numbering of its current connection. Each public operation and each
    inbound-command handler is one transition; what the network and the
    server answer are parameters. */
module Sessions {

  import opened Wrappers
  import opened Failures
  import opened Helpers
  import opened Text
  import opened Enums
  import opened Users
  import opened Events
  import opened Collections
  import opened Roster
  import Messages
  import Connections
  import C = Commands
  import T = Tracker

  /** `connection` is the id of the current `SocketConnection` (None for
      null); `made` counts the connections made so far, so a new one gets
      an id no handler has seen. `participants` is the `Users` collection. */
  datatype Session = Session(
    closed: bool,
    connected: bool,
    connection: Option<nat>,
    made: nat,
    participants: seq<UserId>,
    tracker: T.Tracker)

  /** `new IMSession(client)`. */
  const NewSession: Session := Session(false, false, None, 0, [], T.Fresh)

  predicate Valid(s: Session) {
    T.Valid(s.tracker) &&
    (s.connected ==> s.connection.Some?) &&
    (s.connection.Some? ==> s.connection.value < s.made)
  }

  /** What one transition leaves: the session and the client afterwards,
      the commands written, the events raised in order, and the outcome. */
  datatype Turn = Turn(session: Session, client: Client, sent: seq<C.Command>,
                       events: seq<Raised>, result: Outcome<Failure>)

  /** A throw before anything changed or was written. */
  function Reject(c: Client, s: Session, f: Failure): (r: Turn)
    ensures r.session == s && r.client == c && r.sent == [] && r.events == [] && r.result == Fail(f)
  {
    Turn(s, c, [], [], Fail(f))
  }

  // ------------------------------------------------------ delivery options

  /** `MessageOptionToString`: the delivery letter of the `MSG` header. */
  function MessageOptionToString(option: MessageOption): (code: string)
    ensures |code| == 1
  {
    match option
    case Acknowledgement => "A"
    case NegativeAcknowledgementOnly => "N"
    case Data => "D"
    case NoAcknowledgement => "U"
  }

  /** The option a delivery letter stands for. */
  function MessageOptionOfCode(code: string): (r: Option<MessageOption>)
  {
    match code
    case "A" => Some(Acknowledgement)
    case "N" => Some(NegativeAcknowledgementOnly)
    case "D" => Some(Data)
    case "U" => Some(NoAcknowledgement)
    case _ => None
  }

  /** The four letters are pairwise distinct: each option reads back from
      its letter. */
  lemma MessageOptionCodesAreDistinct(a: MessageOption, b: MessageOption)
    ensures MessageOptionOfCode(MessageOptionToString(a)) == Some(a)
    ensures MessageOptionToString(a) == MessageOptionToString(b) <==> a == b
  {
  }

  // ---------------------------------------------------------- SendMessage

  /** The longest message body `SendMessageAsync` accepts, in bytes. */
  const MaxBodyLength: nat := 1664

  /** How a wait for a NAK ended when none came: the two minutes passed, or
      the connection was disposed meanwhile. */
  datatype WaitEnd = TimedOut | Disposed

  /** The `MSG` request for a message and an option; its id is assigned
      when it is written through the tracker. */
  function MessageRequest(m: Messages.Message, option: MessageOption): (cmd: C.Command)
    ensures cmd.trId.None? && cmd.body.SendMessage?
    ensures cmd.body.payload == Messages.GetBytes(m)
    ensures MessageOptionOfCode(cmd.body.deliveryMethod) == Some(option)
  {
    MessageOptionCodesAreDistinct(option, option);
    C.Command(None, C.SendMessage(MessageOptionToString(option), Messages.GetBytes(m)))
  }

  /** Acknowledgement and Data: a NAK is a delivery failure; a server
      error or no reply at all propagates. */
  function AckOutcome(response: Result<C.Command, Failure>): (o: Outcome<Failure>)
  {
    match response
    case Err(f) => Fail(f)
    case Ok(answer) =>
      if answer.body.NegativeAcknowledgement? then Fail(MessageDeliveryFailed) else Pass
  }

  /** NegativeAcknowledgementOnly: a NAK is a failure, no NAK within the two
      minutes is a delivery, and a connection disposed meanwhile is a
      failure. */
  function NakOutcome(response: Result<C.Command, Failure>, end: WaitEnd): (o: Outcome<Failure>)
  {
    match response
    case Ok(_) => Fail(MessageDeliveryFailed)
    case Err(Timeout) => if end == TimedOut then Pass else Fail(MessageDeliveryFailed)
    case Err(f) => Fail(f)
  }

  /** `SendMessageAsync(message, option)`. `inbound` is what the session
      reads while it waits for the reply; `end` how a NAK-only wait ended if
      no NAK came. */
  function SendMessage(c: Client, s: Session, m: Messages.Message, option: MessageOption,
                       inbound: seq<C.Command>, end: WaitEnd): (r: Turn)
    requires Valid(s)
    ensures Valid(r.session) && r.client == c && r.events == []
    ensures r.session.participants == s.participants && r.session.connection == s.connection
    ensures r.session.closed == s.closed && r.session.connected == s.connected
    ensures |m.body| > MaxBodyLength ==> r == Reject(c, s, Argument)
    ensures |m.body| <= MaxBodyLength && s.closed ==> r == Reject(c, s, ObjectDisposed)
    ensures |m.body| <= MaxBodyLength && !s.closed && |s.participants| == 0 ==> r == Reject(c, s, NoParticipants)
    ensures |m.body| <= MaxBodyLength && !s.closed && |s.participants| > 0 ==>
      |r.sent| == 1 && r.sent[0].body == MessageRequest(m, option).body
    ensures option == NoAcknowledgement ==> r.session == s && (r.result.Pass? <==> r.sent != [])
  {
    if |m.body| > MaxBodyLength then Reject(c, s, Argument)
    else if s.closed then Reject(c, s, ObjectDisposed)
    else if |s.participants| == 0 then Reject(c, s, NoParticipants)
    else
      var cmd := MessageRequest(m, option);
      match option
      case NoAcknowledgement => Turn(s, c, [cmd], [], Pass)
      case NegativeAcknowledgementOnly =>
        var x := T.GetResponse(s.tracker, cmd, {C.NegativeAcknowledgementCommand}, inbound);
        Turn(s.(tracker := x.tracker), c, [x.sent], [], NakOutcome(x.response, end))
      case _ =>
        var x := T.GetResponse(s.tracker, cmd, {C.AcknowledgementCommand, C.NegativeAcknowledgementCommand}, inbound);
        Turn(s.(tracker := x.tracker), c, [x.sent], [], AckOutcome(x.response))
  }

  /** A message the session will try to send: short enough, open, with
      someone to send it to. */
  predicate Sendable(s: Session, m: Messages.Message) {
    |m.body| <= MaxBodyLength && !s.closed && |s.participants| > 0
  }

  /** Acknowledgement and Data modes succeed exactly when the first reply
      carrying the message's id is an ACK; a NAK first is a delivery
      failure, a server error first fails with its code, and no reply is a
      timeout. */
  lemma AckModeOutcome(c: Client, s: Session, m: Messages.Message, option: MessageOption,
                       inbound: seq<C.Command>, end: WaitEnd)
    requires Valid(s) && Sendable(s, m)
    requires option == Acknowledgement || option == Data
    ensures var id := T.NextId(s.tracker).0;
      var r := SendMessage(c, s, m, option, inbound, end);
      var accepted := {C.AcknowledgementCommand, C.NegativeAcknowledgementCommand};
      match T.FirstAnswer(inbound, id, accepted)
      case None => r.result == Fail(Timeout)
      case Some(i) =>
        && (inbound[i].body.Acknowledgement? ==> r.result == Pass)
        && (inbound[i].body.NegativeAcknowledgement? ==> r.result == Fail(MessageDeliveryFailed))
        && (inbound[i].body.ServerError? ==> r.result == Fail(ServerErrorException(inbound[i].body.errorCode)))
  {
  }

  /** NegativeAcknowledgementOnly mode fails on a NAK carrying the message's
      id, and otherwise succeeds exactly when the wait timed out rather than
      the connection being disposed. */
  lemma NakOnlyModeOutcome(c: Client, s: Session, m: Messages.Message,
                           inbound: seq<C.Command>, end: WaitEnd)
    requires Valid(s) && Sendable(s, m)
    ensures var id := T.NextId(s.tracker).0;
      var r := SendMessage(c, s, m, NegativeAcknowledgementOnly, inbound, end);
      match T.FirstAnswer(inbound, id, {C.NegativeAcknowledgementCommand})
      case None => (r.result.Pass? <==> end == TimedOut) && (r.result.Fail? ==> r.result.error == MessageDeliveryFailed)
      case Some(i) =>
        && (!inbound[i].body.ServerError? ==> r.result == Fail(MessageDeliveryFailed))
        && (inbound[i].body.ServerError? ==> r.result == Fail(ServerErrorException(inbound[i].body.errorCode)))
  {
  }

  /** NoAcknowledgement writes the message without an id and succeeds
      whatever the session then reads. */
  lemma NoAckModeNeverWaits(c: Client, s: Session, m: Messages.Message,
                            inbound: seq<C.Command>, end: WaitEnd)
    requires Valid(s) && Sendable(s, m)
    ensures var r := SendMessage(c, s, m, NoAcknowledgement, inbound, end);
      r.result == Pass && r.sent == [MessageRequest(m, NoAcknowledgement)] && r.session.tracker == s.tracker
  {
  }

  // ------------------------------------------------------------- handlers

  /** `HandleJoiningUsers`: a `JOI` read on connection `from`. A stale
      connection's command is ignored; otherwise the user is looked up and
      takes the switchboard nickname, and is added with one `UserJoined`
      event unless already a participant (the server sometimes sends both
      `IRO` and `JOI`). */
  function HandleJoiningUser(c: Client, s: Session, from: nat, login: string, nickname: string): (r: Turn)
    requires Roster.Valid(c)
    ensures Roster.Valid(r.client) && r.sent == []
    ensures s.connection != Some(from) ==> r == Turn(s, c, [], [], Pass)
    ensures r.session.(participants := s.participants) == s
    ensures forall u :: u in s.participants ==> u in r.session.participants
    ensures |r.events| <= 1
    ensures r.events != [] <==> |r.session.participants| == |s.participants| + 1
  {
    if s.connection != Some(from) then Turn(s, c, [], [], Pass)
    else
      match GetUserInner(c, login)
      case Err(f) => Turn(s, c, [], [], Fail(f))
      case Ok(l) =>
        var c1 := UpdateNicknameFromIM(l.client, l.user, nickname);
        if l.user in s.participants then Turn(s, c1, [], [], Pass)
        else Turn(s.(participants := s.participants + [l.user]), c1, [], [Raised(UserJoined, UserEventArgs(l.user))], Pass)
  }

  /** `HandlePartingUsers`: a `BYE` read on connection `from`. The user
      leaves the participants, and one `UserParted` event is raised whether
      or not they were one. */
  function HandlePartingUser(c: Client, s: Session, from: nat, login: string): (r: Turn)
    requires Roster.Valid(c)
    ensures Roster.Valid(r.client) && r.sent == []
    ensures s.connection != Some(from) ==> r == Turn(s, c, [], [], Pass)
    ensures r.session.(participants := s.participants) == s
    ensures forall u :: u in r.session.participants ==> u in s.participants
    ensures r.result.Pass? && s.connection == Some(from) ==> |r.events| == 1 && r.events[0].name == UserParted
  {
    if s.connection != Some(from) then Turn(s, c, [], [], Pass)
    else
      match GetUserInner(c, login)
      case Err(f) => Turn(s, c, [], [], Fail(f))
      case Ok(l) =>
        Turn(s.(participants := RemoveFirst(s.participants, l.user)), l.client, [],
             [Raised(UserParted, UserEventArgs(l.user))], Pass)
  }

  /** A `JOI` for someone already in the conversation adds no one and raises
      nothing: joining twice is joining once. */
  lemma JoinTwiceIsJoinOnce(c: Client, s: Session, from: nat, login: string, nick1: string, nick2: string)
    requires Roster.Valid(c) && !c.closed && s.connection == Some(from)
    ensures var r1 := HandleJoiningUser(c, s, from, login, nick1);
      var r2 := HandleJoiningUser(r1.client, r1.session, from, login, nick2);
      r2.session == r1.session && r2.events == [] && r2.result == Pass
  {
    var l := GetUserInner(c, login).value;
    var r1 := HandleJoiningUser(c, s, from, login, nick1);
    assert l.user in r1.session.participants;
    assert ToLower(login) in r1.client.cache && r1.client.cache[ToLower(login)] == l.user;
  }

  /** A newcomer who joins and then parts leaves the participants as they
      were, with one `UserJoined` and then one `UserParted` event. */
  lemma JoinThenPart(c: Client, s: Session, from: nat, login: string, nickname: string)
    requires Roster.Valid(c) && !c.closed && s.connection == Some(from)
    requires IdsBelow(s.participants, |c.users|)
    requires ToLower(login) !in c.cache || c.cache[ToLower(login)] !in s.participants
    ensures var r1 := HandleJoiningUser(c, s, from, login, nickname);
      var r2 := HandlePartingUser(r1.client, r1.session, from, login);
      r2.session == s && |r1.events| == 1 && r1.events[0].name == UserJoined &&
      r2.events == [Raised(UserParted, r1.events[0].args)]
  {
    var l := GetUserInner(c, login).value;
    var r1 := HandleJoiningUser(c, s, from, login, nickname);
    assert l.user !in s.participants;
    assert ToLower(login) in r1.client.cache && r1.client.cache[ToLower(login)] == l.user;
    RemoveFirstAppended(s.participants, l.user);
  }

  /** `HandleMessages`: an `MSG` read while the session is open raises one
      `MessageReceived` event with the sender and the parsed message. */
  function HandleMessage(c: Client, s: Session, sender: string, payload: seq<byte>): (r: Turn)
    requires Roster.Valid(c)
    ensures Roster.Valid(r.client) && r.session == s && r.sent == []
    ensures s.closed ==> r == Turn(s, c, [], [], Pass)
    ensures r.events != [] <==> !s.closed && r.result.Pass?
    ensures r.events != [] ==> (
      |r.events| == 1 && r.events[0].name == MessageReceived && r.events[0].args.MessageEventArgs? &&
      Messages.Parse(payload) == Ok(r.events[0].args.content) &&
      ToLower(sender) in r.client.cache && r.events[0].args.sender == Some(r.client.cache[ToLower(sender)]))
  {
    if s.closed then Turn(s, c, [], [], Pass)
    else
      match GetUserInner(c, sender)
      case Err(f) => Turn(s, c, [], [], Fail(f))
      case Ok(l) =>
        match Messages.Parse(payload)
        case Err(f) => Turn(s, l.client, [], [], Fail(f))
        case Ok(message) =>
          Turn(s, l.client, [], [Raised(MessageReceived, NewMessageEventArgs(l.user, message))], Pass)
  }

  // ----------------------------------------------------- disconnect, close

  /** One `UserParted` event per former participant, in order. */
  function PartedEvents(users: seq<UserId>): (es: seq<Raised>)
    ensures |es| == |users|
    ensures forall i :: 0 <= i < |users| ==> es[i] == Raised(UserParted, UserEventArgs(users[i]))
  {
    if |users| == 0 then []
    else [Raised(UserParted, UserEventArgs(users[0]))] + PartedEvents(users[1..])
  }

  /** `DisconnectInner`: nothing when not connected; otherwise the
      connection is dropped, every participant is removed, and one
      `UserParted` event per former participant follows. */
  function DisconnectInner(s: Session): (r: (Session, seq<Raised>))
    requires Valid(s)
    ensures Valid(r.0) && !r.0.connected && r.0.closed == s.closed
    ensures !s.connected ==> r == (s, [])
    ensures s.connected ==> (
      r.0.participants == [] && r.0.connection.None? && |r.1| == |s.participants| &&
      forall i :: 0 <= i < |s.participants| ==> r.1[i].name == UserParted && r.1[i].args == UserEventArgs(s.participants[i]))
  {
    if !s.connected then (s, [])
    else (s.(connected := false, connection := None, participants := []), PartedEvents(s.participants))
  }

  /** A second disconnect changes nothing and raises nothing. */
  lemma DisconnectIsIdempotent(s: Session)
    requires Valid(s)
    ensures DisconnectInner(DisconnectInner(s).0) == (DisconnectInner(s).0, [])
  {
  }

  /** `DisconnectAsync`: a closed session throws. */
  function Disconnect(c: Client, s: Session): (r: Turn)
    requires Valid(s)
    ensures Valid(r.session) && r.client == c && r.sent == []
    ensures r.result.Fail? <==> s.closed
    ensures r.result.Pass? ==> !r.session.connected
  {
    if s.closed then Reject(c, s, ObjectDisposed)
    else
      var (s1, es) := DisconnectInner(s);
      Turn(s1, c, [], es, Pass)
  }

  /** `connection_Error`: an error on the current connection disconnects;
      one on an earlier connection is ignored. */
  function ConnectionError(c: Client, s: Session, from: nat): (r: Turn)
    requires Valid(s)
    ensures Valid(r.session) && r.client == c && r.sent == [] && r.result == Pass
    ensures s.connection != Some(from) ==> r.session == s && r.events == []
    ensures s.connection == Some(from) && s.connected ==> r.session.participants == [] && !r.session.connected
  {
    if s.connection != Some(from) then Turn(s, c, [], [], Pass)
    else
      var (s1, es) := DisconnectInner(s);
      Turn(s1, c, [], es, Pass)
  }

  /** `Close`: the first call disconnects, marks the session closed and
      raises `Closed` last; a closed session is left alone. */
  function Close(c: Client, s: Session): (r: Turn)
    requires Valid(s)
    ensures Valid(r.session) && r.session.closed && r.client == c && r.sent == [] && r.result == Pass
    ensures s.closed ==> r.session == s && r.events == []
    ensures !s.closed ==> (
      r.session.participants == [] && !r.session.connected &&
      |r.events| > 0 && r.events[|r.events| - 1] == Raised(Closed, Empty))
  {
    if s.closed then Turn(s, c, [], [], Pass)
    else
      var (s1, es) := DisconnectInner(s);
      Turn(s1.(closed := true, participants := []), c, [], es + [Raised(Closed, Empty)], Pass)
  }

  /** Closing twice is closing once, and `Closed` is raised exactly once. */
  lemma CloseIsIdempotent(c: Client, s: Session)
    requires Valid(s) && !s.closed
    ensures var r1 := Close(c, s);
      var r2 := Close(r1.client, r1.session);
      r2.session == r1.session && r2.events == [] &&
      forall i :: 0 <= i < |r1.events| - 1 ==> r1.events[i].name != Closed
  {
    var r1 := Close(c, s);
    var es := DisconnectInner(s).1;
    assert r1.events == es + [Raised(Closed, Empty)];
    forall i | 0 <= i < |r1.events| - 1
      ensures r1.events[i].name != Closed
    {
      assert r1.events[i] == es[i];
    }
  }

  // ------------------------------------------------------ connecting, CAL

  /** `InitConnection` after the socket connected: a new connection with a
      fresh tracker. */
  function Connected(s: Session): (r: Session)
    requires Valid(s)
    ensures Valid(r) && r.connection == Some(s.made) && r.tracker == T.Fresh
    ensures r.participants == s.participants && r.closed == s.closed && r.connected == s.connected
  {
    s.(connection := Some(s.made), made := s.made + 1, tracker := T.Fresh)
  }

  /** A connection attempt: the session after it, what it wrote, and how it
      ended. */
  datatype Attempt = Attempt(session: Session, sent: seq<C.Command>, result: Outcome<Failure>)

  /** The not-connected branch of `InviteUserAsync`: ask the notification
      server for a switchboard (`board`, the `XFR SB` reply), parse its
      address, connect (`dial`), authenticate with `USR` and subscribe. A
      failure after the socket was created leaves it in place, not
      connected. */
  function Switch(c: Client, s: Session, board: Result<C.Body, Failure>, dial: Outcome<Failure>,
                  inbound: seq<C.Command>): (r: Attempt)
    requires Roster.Valid(c) && Valid(s)
    requires board.Ok? ==> board.value.Transfer?
    ensures Valid(r.session) && r.session.participants == s.participants && r.session.closed == s.closed
    ensures |r.sent| <= 1
    ensures r.result.Pass? <==> r.session.connected
    ensures s.connected ==> r == Attempt(s, [], Pass)
    ensures r.result.Pass? && !s.connected ==> r.session.connection == Some(s.made) && |r.sent| == 1
  {
    if s.connected then Attempt(s, [], Pass)
    else if board.Err? then Attempt(s, [], Fail(board.error))
    else
      match Connections.ParseEndPoint(board.value.host)
      case Err(f) => Attempt(s, [], Fail(f))
      case Ok(_) =>
        if dial.Fail? then Attempt(s.(connection := Some(s.made), made := s.made + 1), [], dial)
        else
          var s1 := Connected(s);
          if c.localUser.None? then Attempt(s1, [], Fail(NullReference))
          else
            var login := c.users[c.localUser.value].loginName;
            var auth := C.Command(None, C.AuthenticateIM(login, "", board.value.host2OrSessionId, ""));
            var x := T.GetOwnResponse(s1.tracker, auth, inbound);
            var s2 := s1.(tracker := x.tracker);
            if x.response.Err? then Attempt(s2, [x.sent], Fail(x.response.error))
            else Attempt(s2.(connected := true), [x.sent], Pass)
  }

  /** The `catch (ServerErrorException)` of `InviteUserAsync`: error 217
      (PrincipalNotOnline) becomes `UserNotOnlineException`; anything else
      propagates. */
  function NotOnlineRule(f: Failure): (g: Failure)
    ensures f.ServerFailure? && f.error == PrincipalNotOnline ==> g == UserNotOnline
    ensures !(f.ServerFailure? && f.error == PrincipalNotOnline) ==> g == f
  {
    if f.ServerFailure? && f.error == PrincipalNotOnline then UserNotOnline else f
  }

  /** A server error becomes `UserNotOnline` exactly for code 217. */
  lemma NotOnlineIsCode217(code: int)
    ensures NotOnlineRule(ServerErrorException(code)) == UserNotOnline <==> code == 217
  {
    var e := ServerErrorException(code).error;
    assert CodeOf(e) == code;
  }

  /** `InviteUserAsync(user)`: connect first if need be, refuse a current
      participant, then send `CAL` with the user's login name. The user is
      not added here; the `JOI` that follows adds them. */
  function InviteUser(c: Client, s: Session, user: UserId, board: Result<C.Body, Failure>,
                      dial: Outcome<Failure>, usrInbound: seq<C.Command>, calInbound: seq<C.Command>): (r: Turn)
    requires Roster.Valid(c) && Valid(s) && user < |c.users|
    requires board.Ok? ==> board.value.Transfer?
    ensures Valid(r.session) && r.client == c && r.events == []
    ensures r.session.participants == s.participants && r.session.closed == s.closed
    ensures s.closed ==> r == Reject(c, s, ObjectDisposed)
    ensures !s.closed && s.connected && user in s.participants ==> r == Reject(c, s, UserAlreadyExists)
    ensures r.result.Pass? ==> (
      r.session.connected && |r.sent| > 0 &&
      r.sent[|r.sent| - 1].body == C.CallUser(c.users[user].loginName, "", ""))
    ensures r.result.Fail? ==> !(r.result.error.ServerFailure? && r.result.error.error == PrincipalNotOnline)
  {
    if s.closed then Reject(c, s, ObjectDisposed)
    else
      var a := Switch(c, s, board, dial, usrInbound);
      if a.result.Fail? then Turn(a.session, c, a.sent, [], Fail(NotOnlineRule(a.result.error)))
      else if user in a.session.participants then Turn(a.session, c, a.sent, [], Fail(UserAlreadyExists))
      else
        var call := C.Command(None, C.CallUser(c.users[user].loginName, "", ""));
        var x := T.GetOwnResponse(a.session.tracker, call, calInbound);
        Turn(a.session.(tracker := x.tracker), c, a.sent + [x.sent], [],
             if x.response.Ok? then Pass else Fail(NotOnlineRule(x.response.error)))
  }

  /** A `CAL` answered by server error 217 fails with `UserNotOnline`. */
  lemma InviteOfflineUser(c: Client, s: Session, user: UserId, calInbound: seq<C.Command>, board: Result<C.Body, Failure>,
                          dial: Outcome<Failure>, usrInbound: seq<C.Command>)
    requires Roster.Valid(c) && Valid(s) && user < |c.users|
    requires board.Ok? ==> board.value.Transfer?
    requires !s.closed && s.connected && user !in s.participants
    requires |calInbound| > 0 && calInbound[0] == C.Command(Some(T.NextId(s.tracker).0), C.ServerError(217))
    ensures InviteUser(c, s, user, board, dial, usrInbound, calInbound).result == Fail(UserNotOnline)
  {
    NotOnlineIsCode217(217);
  }

  // -------------------------------------------------- ConnectByInvitation

  /** What an invitation (`IMSessionInvitation`) holds for answering it. */
  datatype Ticket = Ticket(sessionId: string, authString: string)

  /** An `IRO` row answering the `ANS` numbered `trId`. */
  predicate IsRosterRow(cmd: C.Command, trId: int) {
    cmd.body.UserRoster? && cmd.trId == Some(trId)
  }

  /** The `IRO` rows answering request `trId`, in order of arrival. */
  function RosterOf(inbound: seq<C.Command>, trId: int): (rows: seq<C.Command>)
    ensures forall i :: 0 <= i < |rows| ==> IsRosterRow(rows[i], trId)
    ensures forall cmd :: cmd in rows <==> cmd in inbound && IsRosterRow(cmd, trId)
    decreases |inbound|
  {
    if |inbound| == 0 then []
    else
      var rest := RosterOf(inbound[1..], trId);
      assert forall cmd :: cmd in inbound <==> cmd == inbound[0] || cmd in inbound[1..];
      if IsRosterRow(inbound[0], trId) then [inbound[0]] + rest else rest
  }

  /** The row that ends the roster: `CurrentIndex == TotalCount`. */
  predicate IsLastRow(cmd: C.Command) {
    cmd.body.UserRoster? && cmd.body.currentIndex == cmd.body.totalCount
  }

  /** The rows up to and including the last one; None when the last one
      never came (the wait times out). */
  function RosterRows(inbound: seq<C.Command>, trId: int): (rows: Option<seq<C.Command>>)
    ensures rows.Some? ==> |rows.value| > 0 && IsLastRow(rows.value[|rows.value| - 1])
    ensures rows.Some? ==> forall i :: 0 <= i < |rows.value| - 1 ==> !IsLastRow(rows.value[i])
    ensures rows.Some? ==> forall i :: 0 <= i < |rows.value| ==> IsRosterRow(rows.value[i], trId)
    ensures rows.None? ==> forall cmd :: cmd in inbound && IsRosterRow(cmd, trId) ==> !IsLastRow(cmd)
  {
    var all := RosterOf(inbound, trId);
    var taken := Helpers.TakeUntil(all, IsLastRow);
    if |taken| > 0 && IsLastRow(taken[|taken| - 1]) then Some(taken)
    else
      assert forall j :: 0 <= j < |all| ==> !IsLastRow(all[j]);
      None
  }

  /** The login name and nickname of each roster row. */
  function RowNames(rows: seq<C.Command>): (names: seq<(string, string)>)
    requires forall i :: 0 <= i < |rows| ==> rows[i].body.UserRoster?
    ensures |names| == |rows|
    ensures forall i :: 0 <= i < |rows| ==> names[i] == (rows[i].body.loginName, rows[i].body.nickname)
  {
    if |rows| == 0 then [] else [(rows[0].body.loginName, rows[0].body.nickname)] + RowNames(rows[1..])
  }

  /** One roster row: the row's user is looked up and takes the row's
      nickname. Known users keep their cache entries. */
  function JoinRow(c: Client, login: string, nickname: string): (r: Result<Lookup, Failure>)
    requires Roster.Valid(c)
    ensures r.Err? <==> c.closed
    ensures r.Ok? ==> Roster.Valid(r.value.client) && !r.value.client.closed
    ensures r.Ok? ==> ToLower(login) in r.value.client.cache && r.value.client.cache[ToLower(login)] == r.value.user
  {
    match GetUserInner(c, login)
    case Err(f) => Err(f)
    case Ok(l) => Ok(l.(client := UpdateNicknameFromIM(l.client, l.user, nickname)))
  }

  /** The roster loop of `ConnectByInvitation`: each row's user is
      appended to the participants, without a membership check. */
  function AddRoster(c: Client, ps: seq<UserId>, names: seq<(string, string)>): (r: Result<(Client, seq<UserId>), Failure>)
    requires Roster.Valid(c)
    ensures r.Err? <==> c.closed && |names| > 0
    ensures r.Ok? ==> Roster.Valid(r.value.0) && |r.value.1| == |ps| + |names| && r.value.1[..|ps|] == ps
    decreases |names|
  {
    if |names| == 0 then Ok((c, ps))
    else
      match JoinRow(c, names[0].0, names[0].1)
      case Err(f) => Err(f)
      case Ok(j) =>
        var r := AddRoster(j.client, ps + [j.user], names[1..]);
        assert r.Ok? ==> r.value.1[..|ps|] == (r.value.1[..|ps| + 1])[..|ps|];
        r
  }

  /** After the roster loop the participants are the rows' users, in the
      rows' order: row `i`'s user is the one its lowercased login name is
      cached under. */
  lemma {:induction false} AddRosterUsers(c: Client, ps: seq<UserId>, names: seq<(string, string)>, i: nat,
                                          r: (Client, seq<UserId>))
    requires Roster.Valid(c) && !c.closed && i < |names| && AddRoster(c, ps, names) == Ok(r)
    ensures |ps| + i < |r.1| && ToLower(names[i].0) in r.0.cache && r.1[|ps| + i] == r.0.cache[ToLower(names[i].0)]
    decreases |names|
  {
    if i == 0 {
      AddRosterFirstUser(c, ps, names);
    } else {
      var j := JoinRow(c, names[0].0, names[0].1).value;
      AddRosterUsers(j.client, ps + [j.user], names[1..], i - 1, r);
      ShiftRow(names, ps, ps + [j.user], i, r);
    }
  }

  /** Row `i` of the roster is row `i - 1` of its tail. */
  lemma ShiftRow(names: seq<(string, string)>, ps: seq<UserId>, next: seq<UserId>, i: nat, r: (Client, seq<UserId>))
    requires 0 < i < |names| && |next| == |ps| + 1
    requires |next| + (i - 1) < |r.1| && ToLower(names[1..][i - 1].0) in r.0.cache
    requires r.1[|next| + (i - 1)] == r.0.cache[ToLower(names[1..][i - 1].0)]
    ensures |ps| + i < |r.1| && ToLower(names[i].0) in r.0.cache && r.1[|ps| + i] == r.0.cache[ToLower(names[i].0)]
  {
    assert names[1..][i - 1] == names[i];
  }

  /** The first row's user is first among the users the loop appends. */
  lemma AddRosterFirstUser(c: Client, ps: seq<UserId>, names: seq<(string, string)>)
    requires Roster.Valid(c) && !c.closed && |names| > 0
    ensures var r := AddRoster(c, ps, names).value;
      ToLower(names[0].0) in r.0.cache && r.1[|ps|] == r.0.cache[ToLower(names[0].0)]
  {
    var j := JoinRow(c, names[0].0, names[0].1).value;
    AddRosterCons(c, ps, names);
    AddRosterKeeps(j.client, ps + [j.user], names[1..], ToLower(names[0].0), j.user);
  }

  /** A user cached before the rest of the roster loop, and last in the
      participants so far, keeps both places. */
  lemma AddRosterKeeps(c: Client, ps: seq<UserId>, names: seq<(string, string)>, key: string, u: UserId)
    requires Roster.Valid(c) && !c.closed && |ps| > 0 && ps[|ps| - 1] == u
    requires key in c.cache && c.cache[key] == u
    ensures var r := AddRoster(c, ps, names).value;
      key in r.0.cache && r.0.cache[key] == u && r.1[|ps| - 1] == u
  {
    var r := AddRoster(c, ps, names).value;
    AddRosterKeepsCache(c, ps, names, key);
    assert r.1[|ps| - 1] == r.1[..|ps|][|ps| - 1];
  }

  /** The roster loop keeps every cache entry it finds. */
  lemma {:induction false} AddRosterKeepsCache(c: Client, ps: seq<UserId>, names: seq<(string, string)>, key: string)
    requires Roster.Valid(c) && !c.closed && key in c.cache
    ensures var r := AddRoster(c, ps, names).value;
      key in r.0.cache && r.0.cache[key] == c.cache[key]
    decreases |names|
  {
    if |names| > 0 {
      var j := JoinRow(c, names[0].0, names[0].1).value;
      JoinRowKeepsCache(c, names[0].0, names[0].1, key);
      AddRosterCons(c, ps, names);
      AddRosterKeepsCache(j.client, ps + [j.user], names[1..], key);
    }
  }

  /** Looking up a roster row's user keeps every cache entry. */
  lemma JoinRowKeepsCache(c: Client, login: string, nickname: string, key: string)
    requires Roster.Valid(c) && !c.closed && key in c.cache
    ensures var j := JoinRow(c, login, nickname).value;
      key in j.client.cache && j.client.cache[key] == c.cache[key]
  {
    var l := GetUserInner(c, login).value;
    assert key in l.client.cache && l.client.cache[key] == c.cache[key];
  }

  /** One turn of the roster loop. */
  lemma AddRosterCons(c: Client, ps: seq<UserId>, names: seq<(string, string)>)
    requires Roster.Valid(c) && !c.closed && |names| > 0
    ensures var j := JoinRow(c, names[0].0, names[0].1).value;
      AddRoster(c, ps, names) == AddRoster(j.client, ps + [j.user], names[1..])
  {
  }

  /** `ConnectByInvitation`: connect (`dial`), send `ANS` with the local
      login name and the invitation's token and session id, and gather the
      `IRO` rows answering it from `inbound`; every row's user joins
      silently, then the session is connected. */
  function ConnectByInvitation(c: Client, s: Session, ticket: Ticket, dial: Outcome<Failure>,
                               inbound: seq<C.Command>): (r: Turn)
    requires Roster.Valid(c) && Valid(s)
    ensures Valid(r.session) && Roster.Valid(r.client) && r.events == [] && |r.sent| <= 1
    ensures dial.Fail? ==> r.result == dial && r.sent == []
    ensures r.result.Pass? ==> r.session.connected && r.session.connection == Some(s.made) && |r.sent| == 1
    ensures r.result.Pass? ==> (
      r.sent[0].trId.Some? &&
      var rows := RosterRows(inbound, r.sent[0].trId.value);
      rows.Some? && |r.session.participants| == |s.participants| + |rows.value|)
  {
    if dial.Fail? then Turn(s.(connection := Some(s.made), made := s.made + 1), c, [], [], dial)
    else
      var s1 := Connected(s);
      if c.localUser.None? then Turn(s1, c, [], [], Fail(NullReference))
      else
        var login := c.users[c.localUser.value].loginName;
        var answer := C.Command(None, C.Answer(login, ticket.authString, ticket.sessionId, ""));
        var x := T.GetOwnResponse(s1.tracker, answer, inbound);
        var s2 := s1.(tracker := x.tracker);
        if x.response.Err? then Turn(s2, c, [x.sent], [], Fail(x.response.error))
        else
          match RosterRows(inbound, x.tracker.lastId)
          case None => Turn(s2, c, [x.sent], [], Fail(Timeout))
          case Some(rows) =>
            match AddRoster(c, s2.participants, RowNames(rows))
            case Err(f) => Turn(s2, c, [x.sent], [], Fail(f))
            case Ok((c1, ps)) => Turn(s2.(participants := ps, connected := true), c1, [x.sent], [], Pass)
  }
}

/** The `MessengerClient` operations of MessengerClient.cs that are not
    roster mutations: the privacy setter, accepting an invitation, logout
    and its `LogoutReason` mapping, `Close`, and the control flow of
    `LoginAsync` (the redirect loop, the `SYN` request, the status it
    announces and the sync it runs). */
module ClientOps {

  import opened Wrappers
  import opened Failures
  import opened Text
  import opened Enums
  import opened Users
  import opened Events
  import opened Collections
  import opened Roster
  import opened Connections
  import opened Sync
  import opened LocalUserOps
  import C = Commands

  // ------------------------------------------------------------ privacy

  /** The values `SetPrivacySettingAsync` accepts for a setting. */
  predicate PrivacyValueAllowed(s: PrivacySetting, value: string) {
    match s
    case AcceptInvitations => value == AcceptInvitationsFromAllUsers || value == AcceptInvitationsFromAllowedUsersOnly
    case AddUsers => value == AddUsersAutomatically || value == AddUsersWithPrompt
  }

  /** `SetPrivacySettingAsync`. The value is checked before the lock; the
      dictionary indexer then throws for a setting no sync row supplied. */
  function SetPrivacySetting(c: Client, s: PrivacySetting, value: string, reply: Outcome<Failure>): (r: Step)
    ensures !PrivacyValueAllowed(s, value) ==> r == Reject(Argument)
    ensures PrivacyValueAllowed(s, value) && Ready(c).Fail? ==> r == Reject(Ready(c).error)
    ensures PrivacyValueAllowed(s, value) && Ready(c).Pass? && s !in c.privacy ==> r == Reject(KeyNotFound)
    ensures PrivacyValueAllowed(s, value) && Ready(c).Pass? && GetPrivacy(c, s) == value ==> r == Reject(Argument)
    ensures r.sent.Some? <==> PrivacyValueAllowed(s, value) && Ready(c).Pass? && s in c.privacy && c.privacy[s] != value
    ensures r.sent.Some? ==> r.sent == Some(C.PrivacySetting(PrivacySettingToString(s), value))
    ensures r.sent.Some? && reply.Fail? ==> r.result == Err(reply.error)
    ensures r.result.Ok? <==> r.sent.Some? && reply.Pass?
    ensures r.result.Ok? ==>
      var e := r.result.value;
      e.client == c.(privacy := e.client.privacy) && GetPrivacy(e.client, s) == value &&
      (forall t :: t != s ==> GetPrivacy(e.client, t) == GetPrivacy(c, t)) &&
      e.events == [Raised(PrivacySettingChanged, PrivacySettingEventArgs(s, value, false))]
  {
    if !PrivacyValueAllowed(s, value) then Reject(Argument)
    else if Ready(c).Fail? then Reject(Ready(c).error)
    else if s !in c.privacy then Reject(KeyNotFound)
    else if c.privacy[s] == value then Reject(Argument)
    else
      var sent := Some(C.PrivacySetting(PrivacySettingToString(s), value));
      match reply
      case Fail(f) => Step(sent, Err(f))
      case Pass =>
        Step(sent, Ok(Effect(c.(privacy := c.privacy[s := value]),
                             [Raised(PrivacySettingChanged, NewPrivacySettingEventArgs(s, value, false))])))
  }

  /** Setting a privacy value and reading it back gives the value; setting
      it again is refused before anything is written. */
  lemma SetPrivacyThenGet(c: Client, s: PrivacySetting, value: string)
    requires SetPrivacySetting(c, s, value, Pass).result.Ok?
    ensures var c1 := SetPrivacySetting(c, s, value, Pass).result.value.client;
      GetPrivacySetting(c1, s) == Ok(value) &&
      SetPrivacySetting(c1, s, value, Pass) == Reject(Argument)
  {
    var c1 := SetPrivacySetting(c, s, value, Pass).result.value.client;
    assert Ready(c1) == Ready(c);
  }

  /** A setting the server never reported cannot be changed: a client
      whose login brought no `BLP` row refuses every `AcceptInvitations`
      change. */
  lemma UnreportedSettingIsRefused(c: Client, value: string)
    requires Ready(c).Pass? && AcceptInvitations !in c.privacy
    requires value == AcceptInvitationsFromAllUsers || value == AcceptInvitationsFromAllowedUsersOnly
    ensures SetPrivacySetting(c, AcceptInvitations, value, Pass) == Reject(KeyNotFound)
  {
  }

  // --------------------------------------------------------- invitations

  /** An `IMSessionInvitation` as far as accepting goes: its `accepted` flag. */
  datatype Invitation = Invitation(sessionId: string, accepted: bool)

  /** The flag after the call and the call's outcome. */
  datatype Acceptance = Acceptance(invitation: Invitation, result: Outcome<Failure>)

  /** `AcceptInvitationAsync` up to connecting the session: the flag is
      exchanged only once the client checks pass, and a second acceptance
      finds it set. */
  function AcceptInvitation(c: Client, inv: Invitation): (r: Acceptance)
    ensures Ready(c).Fail? ==> r == Acceptance(inv, Ready(c))
    ensures Ready(c).Pass? ==> r.invitation == inv.(accepted := true)
    ensures r.result.Pass? <==> Ready(c).Pass? && !inv.accepted
    ensures Ready(c).Pass? && inv.accepted ==> r.result == Fail(InvalidOperation)
  {
    if Ready(c).Fail? then Acceptance(inv, Ready(c))
    else if inv.accepted then Acceptance(inv, Fail(InvalidOperation))
    else Acceptance(inv.(accepted := true), Pass)
  }

  /** An invitation is accepted at most once. */
  lemma AcceptTwiceFails(c: Client, inv: Invitation)
    requires AcceptInvitation(c, inv).result.Pass?
    ensures AcceptInvitation(c, AcceptInvitation(c, inv).invitation).result == Fail(InvalidOperation)
  {
  }

  // -------------------------------------------------------------- logout

  /** The users after the forward-list pass of `LogoutInner`, and one
      status event per user it took offline. */
  datatype OfflinePass = OfflinePass(users: seq<User>, events: seq<EventArgs>)

  /** The `foreach` over the forward-list users not offline: each is set
      offline, with an event carrying its previous status. */
  function TakeOffline(users: seq<User>, fl: seq<UserId>): (r: OfflinePass)
    requires IdsBelow(fl, |users|)
    ensures |r.users| == |users|
    ensures forall u :: 0 <= u < |users| && u in fl ==> r.users[u] == users[u].(status := Offline)
    ensures forall u :: 0 <= u < |users| && u !in fl ==> r.users[u] == users[u]
    ensures forall i :: 0 <= i < |r.events| ==>
      r.events[i].UserStatusEventArgs? && r.events[i].user in fl && r.events[i].user < |users| &&
      r.events[i].status == Offline && r.events[i].previousStatus == users[r.events[i].user].status &&
      r.events[i].previousStatus != Offline && !r.events[i].loginEvent
    ensures r.events == OfflineEvents(users, fl)
    decreases |fl|
  {
    if |fl| == 0 then OfflinePass(users, [])
    else
      var u := fl[0];
      assert forall v :: v in fl <==> v == u || v in fl[1..] by { assert fl == [u] + fl[1..]; }
      if users[u].status != Offline then
        var users1 := users[u := users[u].(status := Offline)];
        var rest := TakeOffline(users1, fl[1..]);
        OfflinePass(rest.users, [NewUserStatusEventArgs(u, Offline, users[u].status, false)] + rest.events)
      else
        assert users[u].(status := Offline) == users[u];
        TakeOffline(users, fl[1..])
  }

  /** The status events of the pass alone, for reasoning about which users
      they report. */
  function OfflineEvents(users: seq<User>, fl: seq<UserId>): seq<EventArgs>
    requires IdsBelow(fl, |users|)
    decreases |fl|
  {
    if |fl| == 0 then []
    else
      var u := fl[0];
      if users[u].status != Offline then
        [NewUserStatusEventArgs(u, Offline, users[u].status, false)] +
        OfflineEvents(users[u := users[u].(status := Offline)], fl[1..])
      else OfflineEvents(users, fl[1..])
  }

  /** The pass reports every user on the list it found online. */
  lemma {:induction false} OfflineEventsReport(users: seq<User>, fl: seq<UserId>, u: UserId)
    requires IdsBelow(fl, |users|) && u in fl && users[u].status != Offline
    ensures exists i :: (0 <= i < |OfflineEvents(users, fl)| &&
      OfflineEvents(users, fl)[i] == UserStatusEventArgs(u, Offline, users[u].status, false))
    decreases |fl|
  {
    var v := fl[0];
    if v == u {
      assert OfflineEvents(users, fl)[0] == UserStatusEventArgs(u, Offline, users[u].status, false);
    } else if users[v].status == Offline {
      assert u in fl[1..] by { assert fl == [v] + fl[1..]; }
      OfflineEventsReport(users, fl[1..], u);
      assert OfflineEvents(users, fl) == OfflineEvents(users, fl[1..]);
    } else {
      assert u in fl[1..] by { assert fl == [v] + fl[1..]; }
      var users1 := users[v := users[v].(status := Offline)];
      OfflineEventsReport(users1, fl[1..], u);
      var rest := OfflineEvents(users1, fl[1..]);
      var j :| 0 <= j < |rest| && rest[j] == UserStatusEventArgs(u, Offline, users1[u].status, false);
      assert OfflineEvents(users, fl)[j + 1] == rest[j];
    }
  }

  /** `LogoutInner`: nothing when logged out; otherwise every forward-list
      user goes offline, the client is logged out, and `LoggedOut` is
      raised before the status events. */
  function LogoutInner(c: Client, reason: LogoutReason, connectionError: Option<Failure>): (r: Effect)
    requires Valid(c)
    ensures Valid(r.client)
    ensures !c.loggedIn ==> r == Effect(c, [])
    ensures c.loggedIn ==> !r.client.loggedIn && r.client == c.(users := r.client.users, loggedIn := false)
    ensures |r.client.users| == |c.users|
    ensures c.loggedIn ==> forall u :: 0 <= u < |c.users| && u in c.lists.forward ==> r.client.users[u].status == Offline
    ensures forall u :: 0 <= u < |c.users| && u !in c.lists.forward ==> r.client.users[u] == c.users[u]
    ensures forall u :: 0 <= u < |c.users| ==> r.client.users[u] == c.users[u].(status := r.client.users[u].status)
    ensures c.loggedIn ==> |r.events| >= 1 && r.events[0] == Raised(LoggedOut, LoggedOutEventArgs(reason, connectionError))
    ensures forall i :: 1 <= i < |r.events| ==>
      r.events[i].name == UserStatusChanged && r.events[i].args.UserStatusEventArgs? &&
      r.events[i].args.user in c.lists.forward && r.events[i].args.user < |c.users| &&
      r.events[i].args.status == Offline &&
      r.events[i].args.previousStatus == c.users[r.events[i].args.user].status != Offline
  {
    if !c.loggedIn then Effect(c, [])
    else
      assert IdsBelow(c.lists.forward, |c.users|) by { assert c.lists.forward == c.lists.Get(ForwardList); }
      var pass := TakeOffline(c.users, c.lists.forward);
      var c1 := c.(users := pass.users, loggedIn := false);
      assert Valid(c1) by {
        assert forall k :: c1.lists.Get(k) == c.lists.Get(k);
      }
      Effect(c1, [Raised(LoggedOut, NewLoggedOutEventArgs(reason, connectionError))] +
                 RaiseAll(UserStatusChanged, pass.events))
  }

  /** The events of a logout: `LoggedOut`, then the pass's status events. */
  lemma LogoutEvents(c: Client, reason: LogoutReason)
    requires Valid(c) && c.loggedIn
    ensures IdsBelow(c.lists.forward, |c.users|)
    ensures LogoutInner(c, reason, None).events ==
      [Raised(LoggedOut, NewLoggedOutEventArgs(reason, None))] + RaiseAll(UserStatusChanged, OfflineEvents(c.users, c.lists.forward))
  {
    assert IdsBelow(c.lists.forward, |c.users|) by { assert c.lists.forward == c.lists.Get(ForwardList); }
  }

  /** Every forward-list user who was online gets a status event. */
  lemma LogoutReportsEveryOnlineUser(c: Client, reason: LogoutReason, u: UserId)
    requires Valid(c) && c.loggedIn && u < |c.users| && u in c.lists.forward && c.users[u].status != Offline
    ensures var r := LogoutInner(c, reason, None);
      exists i :: 1 <= i < |r.events| && r.events[i] == Raised(UserStatusChanged, UserStatusEventArgs(u, Offline, c.users[u].status, false))
  {
    LogoutEvents(c, reason);
    var events := OfflineEvents(c.users, c.lists.forward);
    OfflineEventsReport(c.users, c.lists.forward, u);
    var e := UserStatusEventArgs(u, Offline, c.users[u].status, false);
    var j :| 0 <= j < |events| && events[j] == e;
    var r := LogoutInner(c, reason, None);
    assert r.events[j + 1] == RaiseAll(UserStatusChanged, events)[j];
  }

  /** A second logout does nothing. */
  lemma LogoutIsIdempotent(c: Client, reason: LogoutReason, again: LogoutReason, err: Option<Failure>)
    requires Valid(c)
    ensures var c1 := LogoutInner(c, reason, err).client;
      LogoutInner(c1, again, None) == Effect(c1, [])
  {
  }

  /** `LogoutAsync`. */
  function Logout(c: Client): (r: Result<Effect, Failure>)
    requires Valid(c)
    ensures c.closed <==> r.Err?
    ensures r.Err? ==> r.error == ObjectDisposed
    ensures r.Ok? ==> !r.value.client.loggedIn && Valid(r.value.client)
    ensures r.Ok? && c.loggedIn ==> |r.value.events| > 0 && r.value.events[0] == Raised(LoggedOut, LoggedOutEventArgs(InitiatedByUser, None))
  {
    if c.closed then Err(ObjectDisposed) else Ok(LogoutInner(c, InitiatedByUser, None))
  }

  /** The `LogoutReason` an `OUT` code stands for. */
  function OutReason(code: string): (r: LogoutReason)
    ensures r == LoggedInElsewhere <==> code == "OTH"
    ensures r == ServerShuttingDown <==> code == "SSD"
    ensures r == ConnectionError <==> code != "OTH" && code != "SSD"
    ensures r != InitiatedByUser
  {
    if code == "OTH" then LoggedInElsewhere
    else if code == "SSD" then ServerShuttingDown
    else ConnectionError
  }

  /** `HandleOut`: an `OUT` on the client's current connection logs it out
      with the reason its code gives; one on an old connection is ignored. */
  function HandleOut(c: Client, code: string, current: bool): (r: Effect)
    requires Valid(c)
    ensures Valid(r.client)
    ensures !current || !c.loggedIn ==> r == Effect(c, [])
    ensures current && c.loggedIn ==> !r.client.loggedIn
    ensures current && c.loggedIn ==> |r.events| > 0 && r.events[0] == Raised(LoggedOut, LoggedOutEventArgs(OutReason(code), None))
  {
    if current then LogoutInner(c, OutReason(code), None) else Effect(c, [])
  }

  /** `connection_Error`: an error on the current connection logs the
      client out, carrying the exception. */
  function HandleConnectionError(c: Client, error: Failure, current: bool): (r: Effect)
    requires Valid(c)
    ensures Valid(r.client)
    ensures !current || !c.loggedIn ==> r == Effect(c, [])
    ensures current && c.loggedIn ==> !r.client.loggedIn
    ensures current && c.loggedIn ==> |r.events| > 0 && r.events[0] == Raised(LoggedOut, LoggedOutEventArgs(ConnectionError, Some(error)))
  {
    if current then LogoutInner(c, ConnectionError, Some(error)) else Effect(c, [])
  }

  // --------------------------------------------------------------- close

  /** `Close`: once only; it logs out, drops the local user, marks the
      client closed and raises `Closed` last. The library also closes the
      conversations and sets `Groups`, `UserLists`, the privacy settings,
      the user cache and the credentials to null; the model keeps them and
      lets `closed` stand for the nulls where a later call reads them. */
  function Close(c: Client): (r: Effect)
    requires Valid(c)
    ensures Valid(r.client) && r.client.closed
    ensures c.closed ==> r == Effect(c, [])
    ensures !c.closed ==> !r.client.loggedIn && r.client.localUser.None?
    ensures !c.closed ==> |r.events| >= 1 && r.events[|r.events| - 1] == Raised(Closed, Empty)
    ensures !c.closed && c.loggedIn ==> r.events[0] == Raised(LoggedOut, LoggedOutEventArgs(InitiatedByUser, None))
    ensures r.client.lists == c.lists && r.client.groups == c.groups && r.client.privacy == c.privacy
  {
    if c.closed then Effect(c, [])
    else
      var l := LogoutInner(c, InitiatedByUser, None);
      Effect(l.client.(closed := true, localUser := None), l.events + [Raised(Closed, Empty)])
  }

  /** Closing twice is closing once, and a closed client refuses every
      roster operation with `ObjectDisposedException`. */
  lemma CloseIsIdempotent(c: Client)
    requires Valid(c) && !c.closed
    ensures var c1 := Close(c).client;
      Close(c1) == Effect(c1, []) && Ready(c1) == Fail(ObjectDisposed) &&
      Logout(c1) == Err(ObjectDisposed)
  {
  }

  // --------------------------------------------------------------- login

  /** What the server answered to `USR TWN I` on one connection: the
      ticket to authenticate with, a transfer to another server, or the
      failure the wait ends in (a server error code or the timeout). */
  datatype UsrReply = Ticket(ticket: string) | Redirect(host: string) | Refused(error: Failure)

  /** One round of the connect loop: the versions in the `VER` reply, how
      the wait for the `CVR` reply ended, and the `USR` reply. */
  datatype Attempt = Attempt(versions: seq<string>, cvr: Outcome<Failure>, usr: UsrReply)

  /** The loop's result: the ticket and every server it connected to. */
  datatype Negotiated = Negotiated(ticket: string, servers: seq<EndPoint>)

  /** Whether the first round gets as far as the `USR TWN I` reply: the
      server offered a version, the credentials are there and `CVR` was
      answered. */
  predicate ReachesUsr(attempts: seq<Attempt>, closed: bool) {
    |attempts| > 0 && |attempts[0].versions| > 0 && !closed && attempts[0].cvr.Pass?
  }

  /** The `while (authTicket == null)` loop of `LoginAsync`, from the
      server `at` with `transfers` transfers followed so far. The guard
      `transferCount > 3` runs before the increment, so four transfers are
      followed and a fifth throws. A server that stops answering is a
      timeout. The `CVR` command carries the login name of the
      credentials, which `Close` clears (`closed`): building it then
      dereferences null. */
  function Negotiate(attempts: seq<Attempt>, at: EndPoint, transfers: nat, closed: bool): (r: Result<Negotiated, Failure>)
    requires transfers <= 4
    ensures r.Ok? ==> |r.value.servers| >= 1 && r.value.servers[0] == at
    ensures r.Ok? ==> |r.value.servers| <= 5 - transfers
    ensures r.Ok? ==> !closed
    ensures |attempts| == 0 ==> r == Err(Timeout)
    ensures |attempts| > 0 && |attempts[0].versions| == 0 ==> r == Err(ProtocolNotAccepted)
    ensures |attempts| > 0 && |attempts[0].versions| > 0 && closed ==> r == Err(NullReference)
    ensures |attempts| > 0 && |attempts[0].versions| > 0 && !closed && attempts[0].cvr.Fail? ==>
      r == Err(attempts[0].cvr.error)
    ensures ReachesUsr(attempts, closed) && attempts[0].usr.Ticket? ==>
      r == Ok(Negotiated(attempts[0].usr.ticket, [at]))
    ensures ReachesUsr(attempts, closed) && attempts[0].usr.Refused? ==> r == Err(attempts[0].usr.error)
    ensures ReachesUsr(attempts, closed) && attempts[0].usr.Redirect? && transfers > 3 ==> r == Err(InvalidOperation)
    decreases |attempts|
  {
    if |attempts| == 0 then Err(Timeout)
    else
      var a := attempts[0];
      if |a.versions| == 0 then Err(ProtocolNotAccepted)
      else if closed then Err(NullReference)
      else if a.cvr.Fail? then Err(a.cvr.error)
      else match a.usr
        case Ticket(t) => Ok(Negotiated(t, [at]))
        case Refused(f) => Err(f)
        case Redirect(host) =>
          if transfers > 3 then Err(InvalidOperation)
          else
            var next :- ParseEndPoint(host);
            var rest :- Negotiate(attempts[1..], next, transfers + 1, closed);
            Ok(Negotiated(rest.ticket, [at] + rest.servers))
  }

  /** A round that is answered with a transfer to a well-formed server. */
  predicate Transfers(a: Attempt) {
    |a.versions| > 0 && a.cvr.Pass? && a.usr.Redirect? && ParseEndPoint(a.usr.host).Ok?
  }

  /** On an open client four transfers are followed; the fifth throws. */
  lemma {:induction false} FifthTransferThrows(attempts: seq<Attempt>, at: EndPoint, transfers: nat)
    requires transfers <= 4 && |attempts| >= 5 - transfers
    requires forall i :: 0 <= i < 5 - transfers ==> Transfers(attempts[i])
    ensures Negotiate(attempts, at, transfers, false) == Err(InvalidOperation)
    decreases 5 - transfers
  {
    assert Transfers(attempts[0]);
    if transfers <= 3 {
      var next := ParseEndPoint(attempts[0].usr.host).value;
      forall i | 0 <= i < 5 - (transfers + 1) ensures Transfers(attempts[1..][i]) {
        assert attempts[1..][i] == attempts[i + 1];
      }
      FifthTransferThrows(attempts[1..], next, transfers + 1);
    }
  }

  /** One followed transfer: the rest of the loop runs from the server it
      names, and that server's path is prefixed by this one. */
  lemma TransferStep(attempts: seq<Attempt>, at: EndPoint, transfers: nat)
    requires |attempts| > 1 && transfers <= 3 && Transfers(attempts[0])
    ensures var next := ParseEndPoint(attempts[0].usr.host).value;
      var r := Negotiate(attempts, at, transfers, false);
      var rest := Negotiate(attempts[1..], next, transfers + 1, false);
      r.Ok? == rest.Ok? &&
      (rest.Ok? ==> r.value.ticket == rest.value.ticket && |r.value.servers| == 1 + |rest.value.servers|)
  {
  }

  /** Transfers while fewer than five were followed, then a ticket: the
      login signs in with that ticket, having connected once per round. */
  lemma {:induction false} TransfersThenTicket(attempts: seq<Attempt>, at: EndPoint, transfers: nat, ticket: string)
    requires |attempts| >= 1 && transfers + |attempts| <= 5
    requires forall i :: 0 <= i < |attempts| - 1 ==> Transfers(attempts[i])
    requires var last := attempts[|attempts| - 1];
      |last.versions| > 0 && last.cvr.Pass? && last.usr == Ticket(ticket)
    ensures Negotiate(attempts, at, transfers, false).Ok?
    ensures Negotiate(attempts, at, transfers, false).value.ticket == ticket
    ensures |Negotiate(attempts, at, transfers, false).value.servers| == |attempts|
    decreases |attempts|
  {
    if |attempts| > 1 {
      assert Transfers(attempts[0]);
      var next := ParseEndPoint(attempts[0].usr.host).value;
      forall i | 0 <= i < |attempts[1..]| - 1 ensures Transfers(attempts[1..][i]) {
        assert attempts[1..][i] == attempts[i + 1];
      }
      TransfersThenTicket(attempts[1..], next, transfers + 1, ticket);
      TransferStep(attempts, at, transfers);
    }
  }

  /** The `SYN` request: the stored time stamps, `"0"` for none. */
  function SyncRequest(c: Client): (b: C.Body)
    ensures b.Synchronize?
    ensures b.timeStamp1 == (if c.stamp1.Some? then c.stamp1.value else "0")
    ensures b.timeStamp2 == (if c.stamp2.Some? then c.stamp2.value else "0")
  {
    C.Synchronize(c.stamp1.GetOr("0"), c.stamp2.GetOr("0"), 0, 0)
  }

  /** Whether the `SYN` reply's stamps differ from the stored ones, so
      the contact list must be rebuilt. */
  predicate NeedsSync(c: Client, syn: C.Body)
    requires syn.Synchronize?
  {
    Some(syn.timeStamp1) != c.stamp1 || Some(syn.timeStamp2) != c.stamp2
  }

  /** The `CHG` written once signed in: always `NLN`, whatever status the
      caller asked for, with the local user's capabilities and display
      picture when there is one. */
  function LoginStatusCommand(c: Client): (b: C.Body)
    requires Valid(c)
    ensures b.ChangeStatus? && b.status == "NLN"
    ensures c.localUser.None? ==> b.capabilities == 0 && b.displayPicture == Some("0")
    ensures c.localUser.Some? ==> b.capabilities == c.users[c.localUser.value].capabilities
    ensures c.localUser.Some? && c.users[c.localUser.value].displayPicture == EmptyObject ==>
      b.displayPicture == Some("0")
    ensures c.localUser.Some? && c.users[c.localUser.value].displayPicture != EmptyObject ==>
      b.displayPicture == ObjectToString(c.users[c.localUser.value].displayPicture)
  {
    if c.localUser.None? then C.ChangeStatus(StatusToString(Online).value, 0, Some("0"))
    else
      var u := c.users[c.localUser.value];
      C.ChangeStatus(StatusToString(Online).value, u.capabilities, Some(PictureToken(u.displayPicture)))
  }

  /** The row classes the login gathers for the sync, as the library lists
      them: `MSG`, `LST`, `LSG`, `PRP` and `BLP`/`GTC`. */
  predicate GatheredAsWritten(b: C.Body) {
    b.Message? || b.User? || b.Group? || b.LocalProperty? || b.PrivacySetting?
  }

  /** The row classes `ProcessSyncCommands` handles, `BPR` among them. */
  predicate Gathered(b: C.Body) {
    GatheredAsWritten(b) || b.UserProperty?
  }

  /** The inbound commands the library keeps for the sync, in arrival
      order: only the five classes it lists. */
  function GatherRowsAsWritten(inbound: seq<C.Body>): (rows: seq<C.Body>)
    ensures |rows| <= |inbound|
    ensures forall b :: b in rows <==> b in inbound && GatheredAsWritten(b)
  {
    if |inbound| == 0 then []
    else
      var rest := GatherRowsAsWritten(inbound[1..]);
      assert forall b :: b in inbound <==> b == inbound[0] || b in inbound[1..] by {
        assert inbound == [inbound[0]] + inbound[1..];
      }
      if GatheredAsWritten(inbound[0]) then [inbound[0]] + rest else rest
  }

  /** The inbound commands kept for the sync, in arrival order, `BPR`
      rows included. */
  function GatherRows(inbound: seq<C.Body>): (rows: seq<C.Body>)
    ensures |rows| <= |inbound|
    ensures forall b :: b in rows <==> b in inbound && Gathered(b)
  {
    if |inbound| == 0 then []
    else
      var rest := GatherRows(inbound[1..]);
      assert forall b :: b in inbound <==> b == inbound[0] || b in inbound[1..] by {
        assert inbound == [inbound[0]] + inbound[1..];
      }
      if Gathered(inbound[0]) then [inbound[0]] + rest else rest
  }

  /** The `BPR` rows the server sends after each `LST` row never reach
      `ProcessSyncCommands` as the library gathers them: the user's phone
      numbers are lost. Gathered as intended, the row sets the property. */
  lemma PhoneRowIsDropped(st: SyncState)
    requires SyncValid(st) && st.lastUser.Some?
    ensures var bpr := C.UserProperty("PHH", "555");
      GatherRowsAsWritten([bpr]) == [] && GatherRows([bpr]) == [bpr] &&
      SyncRows(st, [bpr]).Ok? &&
      GetProperty(SyncRows(st, [bpr]).value.client.users[st.lastUser.value], HomePhone) == "555"
  {
    var bpr := C.UserProperty("PHH", "555");
    assert StringToProperty("PHH") == Ok(HomePhone);
    var r := SyncUserProperty(st, "PHH", "555");
    assert SyncRow(st, bpr) == r;
    assert SyncRows(r.value, []) == Ok(r.value);
  }

  /** How many `LST`/`LSG` rows arrived, to compare with the counts the
      `SYN` reply announced. */
  function CountContactRows(inbound: seq<C.Body>): (n: nat)
    ensures n <= |inbound|
  {
    if |inbound| == 0 then 0
    else (if inbound[0].User? || inbound[0].Group? then 1 else 0) + CountContactRows(inbound[1..])
  }

  /** The first step once signed in: on the first login the local user
      is created and cached under the login name as given (`Add`, which
      throws when the name is already cached); either way it takes the
      initial status. A closed client has no cache to add to. */
  function SignIn(c: Client, loginName: string, initial: UserStatus): (r: Result<Client, Failure>)
    requires Valid(c)
    requires c.closed ==> c.localUser.None?
    ensures c.closed ==> r == Err(NullReference)
    ensures !c.closed && c.localUser.None? && loginName in c.cache ==> r == Err(Argument)
    ensures r.Ok? <==> !c.closed && (c.localUser.None? ==> loginName !in c.cache)
    ensures r.Ok? ==> Valid(r.value) && r.value.localUser.Some? && r.value.users[r.value.localUser.value].status == initial
    ensures r.Ok? && c.localUser.Some? ==> r.value.localUser == c.localUser && |r.value.users| == |c.users|
    ensures r.Ok? && c.localUser.None? ==>
      r.value.localUser == Some(|c.users|) && |r.value.users| == |c.users| + 1 &&
      loginName in r.value.cache && r.value.cache[loginName] == |c.users| &&
      r.value.users[|c.users|].loginName == loginName
    ensures r.Ok? ==> r.value.lists == c.lists && r.value.groups == c.groups && r.value.groupTable == c.groupTable
    ensures r.Ok? ==> !r.value.closed && r.value.loggedIn == c.loggedIn && r.value.stamp1 == c.stamp1 && r.value.stamp2 == c.stamp2
  {
    if c.closed then Err(NullReference)
    else if c.localUser.None? && loginName in c.cache then Err(Argument)
    else
      var c1 := if c.localUser.Some? then c
                else c.(users := c.users + [NewUser(loginName)], cache := c.cache[loginName := |c.users|],
                        localUser := Some(|c.users|));
      assert Valid(c1);
      var local := c1.localUser.value;
      ValidAfterUserUpdate(c1, local, c1.users[local].(status := initial));
      Ok(c1.(users := c1.users[local := c1.users[local].(status := initial)]))
  }

  /** The end of `LoginAsync`, after the `SYN` reply: the local user signs
      in; when the stamps changed, they are stored and the gathered rows
      are processed; then the client is logged in and `LoggedIn`, the
      local status change and the sync events are raised in that order. */
  function LoginFinish(c: Client, loginName: string, initial: UserStatus, syn: C.Body, inbound: seq<C.Body>):
    (r: Result<Effect, Failure>)
    requires Valid(c) && !c.loggedIn && syn.Synchronize?
    requires c.closed ==> c.localUser.None?
    ensures SignIn(c, loginName, initial).Err? ==> r == Err(SignIn(c, loginName, initial).error)
    ensures r.Ok? ==> Valid(r.value.client) && r.value.client.loggedIn && r.value.client.localUser.Some?
    ensures r.Ok? ==>
      |r.value.events| >= 2 && r.value.events == LoginEvents(r.value.client.localUser.value, initial, r.value.events[2..])
    ensures r.Ok? && !NeedsSync(c, syn) ==> r.value.client.lists == c.lists && r.value.client.groups == c.groups
    ensures r.Ok? && !NeedsSync(c, syn) ==> |r.value.events| == 2
    ensures r.Ok? && NeedsSync(c, syn) ==>
      r.value.client.stamp1 == Some(syn.timeStamp1) && r.value.client.stamp2 == Some(syn.timeStamp2)
    ensures r.Ok? && NeedsSync(c, syn) ==>
      forall k, v :: v in r.value.client.lists.Get(k) ==> NamedUser(r.value.client, GatherRowsAsWritten(inbound), v)
    ensures r.Ok? && NeedsSync(c, syn) ==>
      forall g :: g in r.value.client.groups ==> NamedGroup(r.value.client, GatherRowsAsWritten(inbound), g)
  {
    var c2 :- SignIn(c, loginName, initial);
    var local := c2.localUser.value;
    if !NeedsSync(c, syn) then Ok(Effect(c2.(loggedIn := true), LoginEvents(local, initial, [])))
    else
      // The sync neither reads nor changes the login flag, so the flag is
      // set before it.
      var e :- SyncAfterLogin(c2.(loggedIn := true), syn, inbound);
      Ok(Effect(e.client, LoginEvents(local, initial, e.events)))
  }

  /** The events the login raises: `LoggedIn`, the local user's status
      change marked as a login event, then those of the sync. */
  function LoginEvents(local: UserId, initial: UserStatus, sync: seq<Raised>): (r: seq<Raised>)
    ensures |r| == 2 + |sync| && r[2..] == sync
    ensures r[0] == Raised(LoggedIn, Empty)
    ensures r[1] == Raised(UserStatusChanged, UserStatusEventArgs(local, initial, Offline, true))
  {
    [Raised(LoggedIn, Empty), Raised(UserStatusChanged, NewUserStatusEventArgs(local, initial, Offline, true))] + sync
  }

  /** The sync of a login whose stamps changed: the stamps are stored and
      the rows gathered as written are processed as written, leaving only
      the users and groups they name; the sync's events follow. */
  function SyncAfterLogin(c: Client, syn: C.Body, inbound: seq<C.Body>): (r: Result<Effect, Failure>)
    requires Valid(c) && !c.closed && c.localUser.Some? && syn.Synchronize?
    ensures var c1 := c.(stamp1 := Some(syn.timeStamp1), stamp2 := Some(syn.timeStamp2));
      var s := SyncRows(SyncState(c1, NoSyncEvents, [], [], None), GatherRowsAsWritten(inbound));
      r.Err? <==> s.Err? || !NothingStale(s.value)
    ensures r.Ok? ==> Valid(r.value.client) && r.value.client.localUser == c.localUser
    ensures r.Ok? ==> r.value.client.loggedIn == c.loggedIn
    ensures r.Ok? ==> r.value.client.stamp1 == Some(syn.timeStamp1) && r.value.client.stamp2 == Some(syn.timeStamp2)
    ensures r.Ok? ==>
      forall k, v :: v in r.value.client.lists.Get(k) ==> NamedUser(r.value.client, GatherRowsAsWritten(inbound), v)
    ensures r.Ok? ==>
      forall g :: g in r.value.client.groups ==> NamedGroup(r.value.client, GatherRowsAsWritten(inbound), g)
  {
    var c1 := c.(stamp1 := Some(syn.timeStamp1), stamp2 := Some(syn.timeStamp2));
    var synced :- ProcessSyncCommandsAsWritten(c1, GatherRowsAsWritten(inbound));
    Ok(Effect(synced.0, RaiseSyncEvents(synced.1)))
  }

  /** The server the login starts from, as `DefaultServer` parses. */
  const FirstServer: EndPoint := EndPoint("messenger.hotmail.com", 1863)

  /** How each wait of `LoginAsync` ended, in the order the login awaits
      them: the rounds of the connect loop, the Passport token request,
      the `USR TWN S` reply, the `SYN` reply, the commands that arrived
      while the contact rows were awaited, and the `CHG` reply. */
  datatype LoginReplies = LoginReplies(attempts: seq<Attempt>, passport: Outcome<Failure>, auth: Outcome<Failure>,
                                       syn: Result<C.Body, Failure>, inbound: seq<C.Body>, status: Outcome<Failure>)

  /** Whether a changed-stamp `SYN` reply announced more `LST`/`LSG` rows
      than arrived, so that the wait for them times out. */
  predicate RowsMissing(c: Client, syn: C.Body, inbound: seq<C.Body>)
    requires syn.Synchronize?
  {
    NeedsSync(c, syn) && CountContactRows(inbound) < syn.userCount + syn.groupCount
  }

  /** The waits of `LoginAsync` up to the `CHG` reply; each throws its
      failure and ends the login, and otherwise the `SYN` reply is what
      the rest of the login works from. */
  function LoginWaits(c: Client, rs: LoginReplies): (r: Result<C.Body, Failure>)
    requires rs.syn.Ok? ==> rs.syn.value.Synchronize?
    ensures var n := Negotiate(rs.attempts, FirstServer, 0, c.closed);
      n.Err? ==> r == Err(n.error)
    ensures c.closed && |rs.attempts| > 0 && |rs.attempts[0].versions| > 0 ==> r == Err(NullReference)
    ensures Negotiate(rs.attempts, FirstServer, 0, c.closed).Ok? ==>
      if rs.passport.Fail? then r == Err(rs.passport.error)
      else if rs.auth.Fail? then r == Err(rs.auth.error)
      else if rs.syn.Err? then r == Err(rs.syn.error)
      else if RowsMissing(c, rs.syn.value, rs.inbound) then r == Err(Timeout)
      else if rs.status.Fail? then r == Err(rs.status.error)
      else r == rs.syn
    ensures r.Ok? ==> r == rs.syn && !c.closed
  {
    DefaultServerParses();
    var n :- Negotiate(rs.attempts, ParseEndPoint(DefaultServer).value, 0, c.closed);
    if rs.passport.Fail? then Err(rs.passport.error)
    else if rs.auth.Fail? then Err(rs.auth.error)
    else
      var syn :- rs.syn;
      if RowsMissing(c, syn, rs.inbound) then Err(Timeout)
      else if rs.status.Fail? then Err(rs.status.error)
      else Ok(syn)
  }

  /** `LoginAsync`: nothing when already logged in; otherwise the waits,
      then the sign-in and the sync of `LoginFinish`. */
  function Login(c: Client, loginName: string, initial: UserStatus, rs: LoginReplies): (r: Result<Effect, Failure>)
    requires Valid(c) && (rs.syn.Ok? ==> rs.syn.value.Synchronize?)
    requires c.closed ==> c.localUser.None?
    ensures c.loggedIn ==> r == Ok(Effect(c, []))
    ensures !c.loggedIn && LoginWaits(c, rs).Err? ==> r == Err(LoginWaits(c, rs).error)
    ensures !c.loggedIn && c.closed && |rs.attempts| > 0 && |rs.attempts[0].versions| > 0 ==> r == Err(NullReference)
    ensures !c.loggedIn && LoginWaits(c, rs).Ok? ==> r == LoginFinish(c, loginName, initial, rs.syn.value, rs.inbound)
    ensures r.Ok? && !c.loggedIn ==> r.value.client.loggedIn && Valid(r.value.client) && !c.closed
  {
    if c.loggedIn then Ok(Effect(c, []))
    else
      var syn :- LoginWaits(c, rs);
      LoginFinish(c, loginName, initial, syn, rs.inbound)
  }

  /** The local user is cached under the login name exactly as given,
      while lookups lower-case it: looking the account up before the
      first login caches it under the lower-case name, so the login of an
      account given in lower case then fails. */
  lemma LookupBeforeLoginBreaksLogin(syn: C.Body, inbound: seq<C.Body>)
    requires syn.Synchronize?
    ensures var c := GetUserInner(NewClient, "bob@example.com").value.client;
      LoginFinish(c, "bob@example.com", Online, syn, inbound) == Err(Argument)
  {
    var c := GetUserInner(NewClient, "bob@example.com").value.client;
    assert ToLower("bob@example.com") == "bob@example.com";
  }
}

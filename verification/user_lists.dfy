/** `UserList.AddUserAsync` and `RemoveUserAsync` (UserLists.cs) for each
    of the five lists, with the forward list's extra rules and the pending
    list's refusal of both. */
module UserListOps {

  import opened Wrappers
  import opened Failures
  import opened Enums
  import opened Users
  import opened Events
  import opened Collections
  import opened Roster
  import C = Commands

  /** Whether `AddUserAsync` gets as far as writing `ADC`. */
  predicate AddAccepted(c: Client, k: ListKind, u: UserId) {
    k != PendingList && Ready(c).Pass? && u !in c.lists.Get(k)
  }

  /** The `ADC` that adds a user to a list: the forward list also sends a
      nickname, the login name standing in for a null one. */
  function AddCommand(c: Client, k: ListKind, u: UserId): (b: C.Body)
    requires u < |c.users|
    ensures b.AddContact? && b.list == ListCode(k) && b.contactLogin == Some(c.users[u].loginName)
    ensures b.contactGuid.None? && b.groupGuid.None?
    ensures k == ForwardList ==> b.contactNickname == Some(c.users[u].nickname.GetOr(c.users[u].loginName))
    ensures k != ForwardList ==> b.contactNickname.None?
  {
    var user := c.users[u];
    C.AddContact(ListCode(k), Some(user.loginName), None,
                 if k == ForwardList then Some(user.nickname.GetOr(user.loginName)) else None, None)
  }

  /** `AddUserAsync`. `reply` is the `ADC` the server answers with, as its
      `Guid`, which the forward list stores on the user. */
  function AddUser(c: Client, k: ListKind, u: UserId, reply: Result<Option<string>, Failure>): (r: Step)
    requires Valid(c) && u < |c.users|
    ensures k == PendingList ==> r == Reject(InvalidOperation)
    ensures Ready(c).Pass? && k != PendingList && u in c.lists.Get(k) ==> r == Reject(InvalidOperation)
    ensures r.sent.Some? <==> AddAccepted(c, k, u)
    ensures r.sent.Some? ==> r.sent == Some(AddCommand(c, k, u))
    ensures AddAccepted(c, k, u) && reply.Err? ==> r.result == Err(reply.error)
    ensures r.result.Ok? <==> AddAccepted(c, k, u) && reply.Ok?
    ensures r.result.Ok? ==>
      var e := r.result.value;
      Valid(e.client) && |e.client.users| == |c.users| &&
      e.client.lists.Get(k) == c.lists.Get(k) + [u] &&
      (forall j :: j != k ==> e.client.lists.Get(j) == c.lists.Get(j)) &&
      e.client.users[u].guid == (if k == ForwardList then reply.value else c.users[u].guid) &&
      e.events == [Raised(UserAddedToList, UserListUserEventArgs(u, k, false))]
  {
    if k == PendingList then Reject(InvalidOperation)
    else if Ready(c).Fail? then Reject(Ready(c).error)
    else if u in c.lists.Get(k) then Reject(InvalidOperation)
    else
      var sent := Some(AddCommand(c, k, u));
      match reply
      case Err(f) => Step(sent, Err(f))
      case Ok(guid) =>
        var c1 := if k == ForwardList then c.(users := c.users[u := c.users[u].(guid := guid)]) else c;
        ValidAfterUserUpdate(c, u, c.users[u].(guid := guid));
        var s := c.lists.Get(k) + [u];
        NoDuplicatesAppend(c.lists.Get(k), u);
        ValidAfterListUpdate(c1, k, s);
        Step(sent, Ok(Effect(c1.(lists := c1.lists.With(k, s)),
                             [Raised(UserAddedToList, NewUserListUserEventArgs(u, k, false))])))
  }

  /** Whether `RemoveUserAsync` gets as far as writing `REM`. */
  predicate RemoveAccepted(c: Client, k: ListKind, u: UserId)
    requires Valid(c)
  {
    k != PendingList && Ready(c).Pass? && u in c.lists.Get(k) &&
    !(k == ForwardList && InSomeGroup(c, u))
  }

  /** The `REM` that removes a user from a list: the forward list names the
      user by guid, the others by login name. A null guid is written as an
      empty token. */
  function RemoveCommand(c: Client, k: ListKind, u: UserId): (b: C.Body)
    requires u < |c.users|
    ensures b.RemoveContact? && b.list == ListCode(k) && b.groupGuid.None?
    ensures k == ForwardList ==> b.loginNameOrGuid == c.users[u].guid.GetOr("")
    ensures k != ForwardList ==> b.loginNameOrGuid == c.users[u].loginName
  {
    var user := c.users[u];
    C.RemoveContact(ListCode(k), if k == ForwardList then user.guid.GetOr("") else user.loginName, None)
  }

  /** `RemoveUserAsync`: a forward-list removal needs the user out of every
      group first and clears the user's guid. */
  function RemoveUser(c: Client, k: ListKind, u: UserId, reply: Outcome<Failure>): (r: Step)
    requires Valid(c) && u < |c.users|
    ensures k == PendingList ==> r == Reject(InvalidOperation)
    ensures Ready(c).Pass? && k != PendingList && u !in c.lists.Get(k) ==> r == Reject(InvalidOperation)
    ensures Ready(c).Pass? && k == ForwardList && InSomeGroup(c, u) ==> r == Reject(InvalidOperation)
    ensures r.sent.Some? <==> RemoveAccepted(c, k, u)
    ensures r.sent.Some? ==> r.sent == Some(RemoveCommand(c, k, u))
    ensures RemoveAccepted(c, k, u) && reply.Fail? ==> r.result == Err(reply.error)
    ensures r.result.Ok? <==> RemoveAccepted(c, k, u) && reply.Pass?
    ensures r.result.Ok? ==>
      var e := r.result.value;
      Valid(e.client) && |e.client.users| == |c.users| &&
      e.client.lists.Get(k) == RemoveFirst(c.lists.Get(k), u) && u !in e.client.lists.Get(k) &&
      (forall j :: j != k ==> e.client.lists.Get(j) == c.lists.Get(j)) &&
      e.client.users[u].guid == (if k == ForwardList then None else c.users[u].guid) &&
      e.events == [Raised(UserRemovedFromList, UserListUserEventArgs(u, k, false))]
  {
    if k == PendingList then Reject(InvalidOperation)
    else if Ready(c).Fail? then Reject(Ready(c).error)
    else if u !in c.lists.Get(k) then Reject(InvalidOperation)
    else if k == ForwardList && InSomeGroup(c, u) then Reject(InvalidOperation)
    else
      var sent := Some(RemoveCommand(c, k, u));
      match reply
      case Fail(f) => Step(sent, Err(f))
      case Pass =>
        var c1 := if k == ForwardList then c.(users := c.users[u := c.users[u].(guid := None)]) else c;
        ValidAfterUserUpdate(c, u, c.users[u].(guid := None));
        var s := RemoveFirst(c.lists.Get(k), u);
        IdsBelowSubset(s, c.lists.Get(k), |c.users|);
        ValidAfterListUpdate(c1, k, s);
        Step(sent, Ok(Effect(c1.(lists := c1.lists.With(k, s)),
                             [Raised(UserRemovedFromList, NewUserListUserEventArgs(u, k, false))])))
  }

  /** Adding a user to a list and then removing it again restores the
      list; on the forward list, the guid the server assigned is cleared. */
  lemma AddThenRemove(c: Client, k: ListKind, u: UserId, guid: Option<string>)
    requires Valid(c) && u < |c.users| && AddAccepted(c, k, u)
    requires k == ForwardList ==> !InSomeGroup(c, u)
    ensures var c1 := AddUser(c, k, u, Ok(guid)).result.value.client;
      RemoveAccepted(c1, k, u) &&
      RemoveUser(c1, k, u, Pass).result.value.client.lists == c.lists
  {
    var c1 := AddUser(c, k, u, Ok(guid)).result.value.client;
    assert c1.groups == c.groups && c1.groupTable == c.groupTable;
    RemoveFirstAppended(c.lists.Get(k), u);
    var c2 := RemoveUser(c1, k, u, Pass).result.value.client;
    assert forall j :: c2.lists.Get(j) == c.lists.Get(j);
  }
}

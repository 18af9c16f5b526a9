/** The group operations: `Group.ChangeNameAsync`, `AddUserAsync` and
    `RemoveUserAsync` (Groups.cs), and the client's `CreateGroupAsync` and
    `RemoveGroupAsync` (MessengerClient.cs). */
module GroupOps {

  import opened Wrappers
  import opened Failures
  import opened Text
  import opened Enums
  import opened Events
  import opened Collections
  import opened Roster
  import C = Commands

  /** The name checks `ChangeNameAsync` and `CreateGroupAsync` make before
      taking the lock. */
  function CheckName(name: Option<string>): (r: Outcome<Failure>)
    ensures name.None? || name == Some("") ==> r == Fail(ArgumentNull)
    ensures r.Pass? <==> name.Some? && name.value != "" && |Utf8Encode(name.value)| <= 61
    ensures r.Fail? && name.Some? && name.value != "" ==> r == Fail(Argument)
  {
    if name.None? || name.value == "" then Fail(ArgumentNull)
    else if |Utf8Encode(name.value)| > 61 then Fail(Argument)
    else Pass
  }

  /** The group's members replaced, and nothing else. */
  function WithMembers(c: Client, g: GroupId, s: seq<UserId>): (r: Client)
    requires g < |c.groupTable|
    ensures |r.groupTable| == |c.groupTable| && r.groupTable[g] == c.groupTable[g].(members := s)
    ensures forall h :: 0 <= h < |c.groupTable| && h != g ==> r.groupTable[h] == c.groupTable[h]
    ensures r.(groupTable := c.groupTable) == c
    ensures Valid(c) && IdsBelow(s, |c.users|) && NoDuplicates(s) ==> Valid(r)
  {
    if Valid(c) && IdsBelow(s, |c.users|) && NoDuplicates(s) then
      ValidAfterMembersUpdate(c, g, s);
      c.(groupTable := c.groupTable[g := c.groupTable[g].(members := s)])
    else
      c.(groupTable := c.groupTable[g := c.groupTable[g].(members := s)])
  }

  // --------------------------------------------------------------- rename

  /** Whether `ChangeNameAsync` gets as far as writing `REG`. A name held
      by exactly one other group passes: the test is "more than one". */
  predicate RenameAccepted(c: Client, g: GroupId, name: Option<string>)
    requires Valid(c) && g < |c.groupTable|
  {
    CheckName(name).Pass? && Ready(c).Pass? && g in c.groups &&
    name.value != c.groupTable[g].name && CountNamed(c, c.groups, name.value) <= 1
  }

  /** `Group.ChangeNameAsync`. */
  function RenameGroup(c: Client, g: GroupId, name: Option<string>, reply: Outcome<Failure>): (r: Step)
    requires Valid(c) && g < |c.groupTable|
    ensures CheckName(name).Fail? ==> r == Reject(CheckName(name).error)
    ensures CheckName(name).Pass? && Ready(c).Pass? && g !in c.groups ==> r == Reject(InvalidOperation)
    ensures CheckName(name).Pass? && Ready(c).Pass? && g in c.groups && name.value == c.groupTable[g].name ==>
      r == Reject(Argument)
    ensures r.sent.Some? <==> RenameAccepted(c, g, name)
    ensures r.sent.Some? ==> r.sent == Some(C.RenameGroup(c.groupTable[g].guid, name.value))
    ensures RenameAccepted(c, g, name) && reply.Fail? ==> r.result == Err(reply.error)
    ensures r.result.Ok? <==> RenameAccepted(c, g, name) && reply.Pass?
    ensures r.result.Ok? ==>
      var e := r.result.value;
      Valid(e.client) &&
      e.client == c.(groupTable := c.groupTable[g := c.groupTable[g].(name := name.value)]) &&
      e.events == [Raised(GroupNameChanged, GroupNameEventArgs(g, name.value, c.groupTable[g].name, false))]
  {
    var check := CheckName(name);
    if check.Fail? then Reject(check.error)
    else if Ready(c).Fail? then Reject(Ready(c).error)
    else if g !in c.groups then Reject(InvalidOperation)
    else if name.value == c.groupTable[g].name then Reject(Argument)
    else if CountNamed(c, c.groups, name.value) > 1 then Reject(Argument)
    else
      var sent := Some(C.RenameGroup(c.groupTable[g].guid, name.value));
      match reply
      case Fail(f) => Step(sent, Err(f))
      case Pass =>
        var prev := c.groupTable[g].name;
        Step(sent, Ok(Effect(c.(groupTable := c.groupTable[g := c.groupTable[g].(name := name.value)]),
                             [Raised(GroupNameChanged, NewGroupNameEventArgs(g, name.value, prev, false))])))
  }

  /** The duplicate test lets one clash through: renaming a group to the
      name of exactly one other group is sent to the server. */
  lemma RenameToSingleDuplicate(c: Client, g: GroupId, h: GroupId, name: string)
    requires Valid(c) && !c.closed && c.loggedIn
    requires g < |c.groupTable| && h < |c.groupTable| && g != h
    requires c.groups == [g, h] && c.groupTable[h].name == name && c.groupTable[g].name != name
    requires name != "" && |Utf8Encode(name)| <= 61
    ensures RenameGroup(c, g, Some(name), Pass).result.Ok?
    ensures CountNamed(c, c.groups, name) == 1
  {
    assert c.groups[1..] == [h];
    assert c.groups[1..][1..] == [];
  }

  // ------------------------------------------------------------- members

  predicate AddMemberAccepted(c: Client, g: GroupId, u: UserId)
    requires g < |c.groupTable|
  {
    Ready(c).Pass? && g in c.groups && u in c.lists.forward && u !in c.groupTable[g].members
  }

  /** `Group.AddUserAsync`: only forward-list users can join a group; the
      command names the user by guid and the group by its guid. */
  function AddMember(c: Client, g: GroupId, u: UserId, reply: Outcome<Failure>): (r: Step)
    requires Valid(c) && g < |c.groupTable| && u < |c.users|
    ensures Ready(c).Pass? && g !in c.groups ==> r == Reject(InvalidOperation)
    ensures Ready(c).Pass? && u !in c.lists.forward ==> r == Reject(InvalidOperation)
    ensures Ready(c).Pass? && u in c.groupTable[g].members ==> r == Reject(InvalidOperation)
    ensures r.sent.Some? <==> AddMemberAccepted(c, g, u)
    ensures r.sent.Some? ==>
      r.sent == Some(C.AddContact(ListCode(ForwardList), None, c.users[u].guid, None, Some(c.groupTable[g].guid)))
    ensures AddMemberAccepted(c, g, u) && reply.Fail? ==> r.result == Err(reply.error)
    ensures r.result.Ok? <==> AddMemberAccepted(c, g, u) && reply.Pass?
    ensures r.result.Ok? ==>
      var e := r.result.value;
      Valid(e.client) &&
      e.client == WithMembers(c, g, c.groupTable[g].members + [u]) &&
      e.events == [Raised(UserAddedToGroup, GroupUserEventArgs(u, g, false))]
  {
    if Ready(c).Fail? then Reject(Ready(c).error)
    else if g !in c.groups then Reject(InvalidOperation)
    else if u !in c.lists.forward then Reject(InvalidOperation)
    else if u in c.groupTable[g].members then Reject(InvalidOperation)
    else
      var sent := Some(C.AddContact(ListCode(ForwardList), None, c.users[u].guid, None, Some(c.groupTable[g].guid)));
      match reply
      case Fail(f) => Step(sent, Err(f))
      case Pass =>
        NoDuplicatesAppend(c.groupTable[g].members, u);
        Step(sent, Ok(Effect(WithMembers(c, g, c.groupTable[g].members + [u]),
                             [Raised(UserAddedToGroup, NewGroupUserEventArgs(u, g, false))])))
  }

  predicate RemoveMemberAccepted(c: Client, g: GroupId, u: UserId)
    requires g < |c.groupTable|
  {
    Ready(c).Pass? && g in c.groups && u in c.groupTable[g].members
  }

  /** `Group.RemoveUserAsync`: exactly that user leaves the group. */
  function RemoveMember(c: Client, g: GroupId, u: UserId, reply: Outcome<Failure>): (r: Step)
    requires Valid(c) && g < |c.groupTable| && u < |c.users|
    ensures Ready(c).Pass? && g !in c.groups ==> r == Reject(InvalidOperation)
    ensures Ready(c).Pass? && u !in c.groupTable[g].members ==> r == Reject(InvalidOperation)
    ensures r.sent.Some? <==> RemoveMemberAccepted(c, g, u)
    ensures r.sent.Some? ==>
      r.sent == Some(C.RemoveContact(ListCode(ForwardList), c.users[u].guid.GetOr(""), Some(c.groupTable[g].guid)))
    ensures RemoveMemberAccepted(c, g, u) && reply.Fail? ==> r.result == Err(reply.error)
    ensures r.result.Ok? <==> RemoveMemberAccepted(c, g, u) && reply.Pass?
    ensures r.result.Ok? ==>
      var e := r.result.value;
      Valid(e.client) &&
      e.client == WithMembers(c, g, RemoveFirst(c.groupTable[g].members, u)) &&
      (forall v :: v in e.client.groupTable[g].members <==> v in c.groupTable[g].members && v != u) &&
      e.events == [Raised(UserRemovedFromGroup, GroupUserEventArgs(u, g, false))]
  {
    if Ready(c).Fail? then Reject(Ready(c).error)
    else if g !in c.groups then Reject(InvalidOperation)
    else if u !in c.groupTable[g].members then Reject(InvalidOperation)
    else
      var sent := Some(C.RemoveContact(ListCode(ForwardList), c.users[u].guid.GetOr(""), Some(c.groupTable[g].guid)));
      match reply
      case Fail(f) => Step(sent, Err(f))
      case Pass =>
        var s := RemoveFirst(c.groupTable[g].members, u);
        IdsBelowSubset(s, c.groupTable[g].members, |c.users|);
        Step(sent, Ok(Effect(WithMembers(c, g, s),
                             [Raised(UserRemovedFromGroup, NewGroupUserEventArgs(u, g, false))])))
  }

  /** Adding a member and removing it again restores the group. */
  lemma AddThenRemoveMember(c: Client, g: GroupId, u: UserId)
    requires Valid(c) && g < |c.groupTable| && u < |c.users| && AddMemberAccepted(c, g, u)
    ensures var c1 := AddMember(c, g, u, Pass).result.value.client;
      RemoveMemberAccepted(c1, g, u) && RemoveMember(c1, g, u, Pass).result.value.client == c
  {
    RemoveFirstAppended(c.groupTable[g].members, u);
  }

  // ------------------------------------------------------- create, remove

  /** The most groups a client may hold. */
  const MaxGroups: nat := 30

  predicate CreateAccepted(c: Client, name: Option<string>)
    requires Valid(c)
  {
    CheckName(name).Pass? && Ready(c).Pass? && |c.groups| < MaxGroups && CountNamed(c, c.groups, name.value) == 0
  }

  /** `MessengerClient.CreateGroupAsync`: the server's `ADG` reply gives
      the guid of the new, empty group, which joins `Groups` at the end.
      The command's guid is never set; the empty string stands for it. */
  function CreateGroup(c: Client, name: Option<string>, reply: Result<string, Failure>): (r: Step)
    requires Valid(c)
    ensures CheckName(name).Fail? ==> r == Reject(CheckName(name).error)
    ensures CheckName(name).Pass? && Ready(c).Pass? && |c.groups| >= MaxGroups ==> r == Reject(InvalidOperation)
    ensures r.sent.Some? <==> CreateAccepted(c, name)
    ensures r.sent.Some? ==> r.sent == Some(C.AddGroup(name.value, ""))
    ensures CreateAccepted(c, name) && reply.Err? ==> r.result == Err(reply.error)
    ensures r.result.Ok? <==> CreateAccepted(c, name) && reply.Ok?
    ensures r.result.Ok? ==>
      var e := r.result.value;
      var id := |c.groupTable|;
      Valid(e.client) &&
      e.client == c.(groupTable := c.groupTable + [Group(reply.value, name.value, [])], groups := c.groups + [id]) &&
      e.events == [Raised(GroupAdded, GroupEventArgs(id, false))]
  {
    var check := CheckName(name);
    if check.Fail? then Reject(check.error)
    else if Ready(c).Fail? then Reject(Ready(c).error)
    else if |c.groups| >= MaxGroups then Reject(InvalidOperation)
    else if CountNamed(c, c.groups, name.value) > 0 then Reject(Argument)
    else
      var sent := Some(C.AddGroup(name.value, ""));
      match reply
      case Err(f) => Step(sent, Err(f))
      case Ok(guid) =>
        var id := |c.groupTable|;
        assert id !in c.groups;
        NoDuplicatesAppend(c.groups, id);
        Step(sent, Ok(Effect(c.(groupTable := c.groupTable + [Group(guid, name.value, [])], groups := c.groups + [id]),
                             [Raised(GroupAdded, NewGroupEventArgs(id, false))])))
  }

  predicate RemoveGroupAccepted(c: Client, g: GroupId)
    requires g < |c.groupTable|
  {
    Ready(c).Pass? && g in c.groups && |c.groupTable[g].members| == 0
  }

  /** `MessengerClient.RemoveGroupAsync`: only an empty group in use. */
  function RemoveGroup(c: Client, g: GroupId, reply: Outcome<Failure>): (r: Step)
    requires Valid(c) && g < |c.groupTable|
    ensures Ready(c).Pass? && g !in c.groups ==> r == Reject(InvalidOperation)
    ensures Ready(c).Pass? && |c.groupTable[g].members| > 0 ==> r == Reject(InvalidOperation)
    ensures r.sent.Some? <==> RemoveGroupAccepted(c, g)
    ensures r.sent.Some? ==> r.sent == Some(C.RemoveGroup(c.groupTable[g].guid))
    ensures RemoveGroupAccepted(c, g) && reply.Fail? ==> r.result == Err(reply.error)
    ensures r.result.Ok? <==> RemoveGroupAccepted(c, g) && reply.Pass?
    ensures r.result.Ok? ==>
      var e := r.result.value;
      Valid(e.client) &&
      e.client == c.(groups := RemoveFirst(c.groups, g)) && g !in e.client.groups &&
      e.events == [Raised(GroupRemoved, GroupEventArgs(g, false))]
  {
    if Ready(c).Fail? then Reject(Ready(c).error)
    else if g !in c.groups then Reject(InvalidOperation)
    else if |c.groupTable[g].members| > 0 then Reject(InvalidOperation)
    else
      var sent := Some(C.RemoveGroup(c.groupTable[g].guid));
      match reply
      case Fail(f) => Step(sent, Err(f))
      case Pass =>
        var s := RemoveFirst(c.groups, g);
        IdsBelowSubset(s, c.groups, |c.groupTable|);
        Step(sent, Ok(Effect(c.(groups := s), [Raised(GroupRemoved, NewGroupEventArgs(g, false))])))
  }

  /** Creating a group and removing it again restores the groups in use. */
  lemma CreateThenRemove(c: Client, name: Option<string>, guid: string)
    requires Valid(c) && CreateAccepted(c, name)
    ensures var c1 := CreateGroup(c, name, Ok(guid)).result.value.client;
      RemoveGroupAccepted(c1, |c.groupTable|) &&
      RemoveGroup(c1, |c.groupTable|, Pass).result.value.client.groups == c.groups
  {
    var id := |c.groupTable|;
    assert id !in c.groups;
    var c1 := CreateGroup(c, name, Ok(guid)).result.value.client;
    assert c1.groups == c.groups + [id] && c1.groupTable[id].members == [];
    assert Valid(c1) && c1.closed == c.closed && c1.loggedIn == c.loggedIn;
    assert RemoveGroupAccepted(c1, id);
    RemoveFirstAppended<GroupId>(c.groups, id);
    assert RemoveGroup(c1, id, Pass).result.value.client.groups == RemoveFirst<GroupId>(c1.groups, id);
  }
}

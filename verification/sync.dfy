/** The contact-list sync of a login: `ProcessSyncCommands` and
    `RaiseSyncEvents` (MessengerClient.cs). The rows the server sends after
    `SYN` rebuild the lists, the groups, the local user's properties and
    the privacy settings; rows no longer sent are removed afterwards. */
module Sync {

  import opened Wrappers
  import opened Failures
  import opened Helpers
  import opened Text
  import opened Enums
  import opened Users
  import opened Events
  import opened Collections
  import opened Roster
  import C = Commands
  import Messages

  /** `SyncEvents`: the payloads gathered while processing, one list per
      kind, raised only once the whole sync is done. */
  datatype SyncEvents = SyncEvents(
    messages: seq<EventArgs>,
    groupAdded: seq<EventArgs>,
    groupRemoved: seq<EventArgs>,
    addedToList: seq<EventArgs>,
    removedFromList: seq<EventArgs>,
    addedToGroup: seq<EventArgs>,
    removedFromGroup: seq<EventArgs>,
    groupNameChanged: seq<EventArgs>,
    nicknameChanged: seq<EventArgs>,
    propertyChanged: seq<EventArgs>,
    privacyChanged: seq<EventArgs>)

  const NoSyncEvents: SyncEvents := SyncEvents([], [], [], [], [], [], [], [], [], [], [])

  /** The same event raised once per payload, in order. */
  function RaiseAll(name: EventName, args: seq<EventArgs>): (r: seq<Raised>)
    ensures |r| == |args|
    ensures forall i :: 0 <= i < |args| ==> r[i] == Raised(name, args[i])
  {
    if |args| == 0 then [] else [Raised(name, args[0])] + RaiseAll(name, args[1..])
  }

  /** `RaiseSyncEvents`: messages first, privacy settings last. */
  function RaiseSyncEvents(e: SyncEvents): (r: seq<Raised>)
    ensures |r| == |e.messages| + |e.groupAdded| + |e.groupRemoved| + |e.addedToList| +
                   |e.removedFromList| + |e.addedToGroup| + |e.removedFromGroup| +
                   |e.groupNameChanged| + |e.nicknameChanged| + |e.propertyChanged| + |e.privacyChanged|
    ensures r[..|e.messages|] == RaiseAll(MessageReceived, e.messages)
    ensures r[|r| - |e.privacyChanged|..] == RaiseAll(PrivacySettingChanged, e.privacyChanged)
  {
    RaiseAll(MessageReceived, e.messages) +
    (RaiseAll(GroupAdded, e.groupAdded) +
    (RaiseAll(GroupRemoved, e.groupRemoved) +
    (RaiseAll(UserAddedToList, e.addedToList) +
    (RaiseAll(UserRemovedFromList, e.removedFromList) +
    (RaiseAll(UserAddedToGroup, e.addedToGroup) +
    (RaiseAll(UserRemovedFromGroup, e.removedFromGroup) +
    (RaiseAll(GroupNameChanged, e.groupNameChanged) +
    (RaiseAll(UserNicknameChanged, e.nicknameChanged) +
    (RaiseAll(UserPropertyChanged, e.propertyChanged) +
     RaiseAll(PrivacySettingChanged, e.privacyChanged))))))))))
  }

  /** The state carried from row to row: the client, the gathered events,
      the users and groups the rows named, and the user of the last `LST`
      row (a `BPR` row belongs to it). */
  datatype SyncState = SyncState(client: Client, events: SyncEvents, refUsers: seq<UserId>,
                                 refGroups: seq<GroupId>, lastUser: Option<UserId>)

  /** The sync runs on an open client whose local user exists. */
  predicate SyncValid(st: SyncState) {
    Valid(st.client) && !st.client.closed && st.client.localUser.Some? &&
    IdsBelow(st.refUsers, |st.client.users|) && IdsBelow(st.refGroups, |st.client.groupTable|) &&
    (st.lastUser.Some? ==> st.lastUser.value < |st.client.users|)
  }

  /** Objects are only ever added to the tables, a cached login name
      keeps its user and a group keeps its guid. */
  predicate Grows(a: Client, b: Client) {
    b.closed == a.closed && b.loggedIn == a.loggedIn && b.localUser == a.localUser &&
    b.stamp1 == a.stamp1 && b.stamp2 == a.stamp2 &&
    |a.users| <= |b.users| && |a.groupTable| <= |b.groupTable| &&
    (forall n :: n in a.cache ==> n in b.cache && b.cache[n] == a.cache[n]) &&
    (forall g :: 0 <= g < |a.groupTable| ==> b.groupTable[g].guid == a.groupTable[g].guid)
  }

  /** Whether some `LST` row of `rows` names user `v`, through the cache. */
  predicate NamedUser(c: Client, rows: seq<C.Body>, v: UserId) {
    exists i :: 0 <= i < |rows| && rows[i].User? && ToLower(rows[i].loginName) in c.cache &&
                c.cache[ToLower(rows[i].loginName)] == v
  }

  /** Whether some `LSG` row of `rows` carries the guid of group `g`. */
  predicate NamedGroup(c: Client, rows: seq<C.Body>, g: GroupId) {
    g < |c.groupTable| && exists i :: 0 <= i < |rows| && rows[i].Group? && rows[i].guid == c.groupTable[g].guid
  }

  // ------------------------------------------------------------ LST rows

  /** One list after an `LST` row: holding the user exactly when `on`. */
  function SetMember(s: seq<UserId>, u: UserId, on: bool): (r: seq<UserId>)
    ensures NoDuplicates(s) ==> NoDuplicates(r) && (u in r <==> on)
    ensures forall v :: v != u ==> (v in r <==> v in s)
    ensures forall v :: v in r ==> v in s || v == u
    ensures (on <==> u in s) ==> r == s
  {
    if on then
      if u in s then s
      else
        assert NoDuplicates(s) ==> NoDuplicates(s + [u]) by {
          if NoDuplicates(s) { NoDuplicatesAppend(s, u); }
        }
        s + [u]
    else RemoveFirst(s, u)
  }

  /** The five lists, each computed from its kind. */
  function MapLists(f: ListKind -> seq<UserId>): (r: Lists)
    ensures forall k :: r.Get(k) == f(k)
  {
    Lists(f(AllowList), f(BlockList), f(ForwardList), f(ReverseList), f(PendingList))
  }

  /** Replacing every list by lists of existing users, each free of
      duplicates, keeps the client valid. */
  lemma ValidAfterListsUpdate(c: Client, l: Lists)
    requires Valid(c)
    requires forall k :: IdsBelow(l.Get(k), |c.users|) && NoDuplicates(l.Get(k))
    ensures Valid(c.(lists := l))
  {
  }

  /** The two loops over the lists: the user joins each list whose code
      the row carries and leaves each other list. The lists do not
      depend on one another, so each ends up as `SetMember` leaves it. */
  function UserOnLists(c: Client, u: UserId, codes: seq<string>): (r: Client)
    requires Valid(c) && u < |c.users|
    ensures Valid(r) && r == c.(lists := r.lists)
    ensures forall k :: r.lists.Get(k) == SetMember(c.lists.Get(k), u, ListCode(k) in codes)
  {
    var l2 := MapLists(k => SetMember(c.lists.Get(k), u, ListCode(k) in codes));
    forall k: ListKind ensures IdsBelow(l2.Get(k), |c.users|) && NoDuplicates(l2.Get(k)) {
      IdsBelowSubsetOr(l2.Get(k), c.lists.Get(k), u, |c.users|);
    }
    ValidAfterListsUpdate(c, l2);
    c.(lists := l2)
  }

  /** Ids below a bound stay below a larger one. */
  lemma IdsBelowWiden(s: seq<nat>, n: nat, m: nat)
    requires IdsBelow(s, n) && n <= m
    ensures IdsBelow(s, m)
  {
  }

  /** Appending an id below the larger bound keeps a list valid. */
  lemma IdsBelowAppend(s: seq<nat>, u: nat, n: nat, m: nat)
    requires IdsBelow(s, n) && n <= m && u < m
    ensures IdsBelow(s + [u], m)
  {
  }

  /** A list whose elements are `u` or elements of a valid list is valid. */
  lemma IdsBelowSubsetOr(s: seq<nat>, t: seq<nat>, u: nat, n: nat)
    requires IdsBelow(t, n) && u < n && forall y :: y in s ==> y in t || y == u
    ensures IdsBelow(s, n)
  {
    forall i | 0 <= i < |s| ensures s[i] < n {
      assert s[i] in s;
    }
  }

  /** The events of one of the two loops over the lists, in list order:
      `adding` for the first (lists the user joins), else the second. */
  function ListEvents(l: Lists, u: UserId, codes: seq<string>, ks: seq<ListKind>, adding: bool): (r: seq<EventArgs>)
    ensures |r| <= |ks|
    ensures forall i :: 0 <= i < |r| ==> r[i].UserListUserEventArgs? && r[i].user == u && !r[i].loginEvent
    ensures (forall k :: k in ks ==> (ListCode(k) in codes <==> u in l.Get(k))) ==> r == []
  {
    if |ks| == 0 then []
    else
      var k := ks[0];
      var rest := ListEvents(l, u, codes, ks[1..], adding);
      assert forall j :: j in ks[1..] ==> j in ks;
      var changes := if adding then ListCode(k) in codes && u !in l.Get(k) else ListCode(k) !in codes && u in l.Get(k);
      if changes then [NewUserListUserEventArgs(u, k, true)] + rest else rest
  }

  /** One group after the two loops over the groups in use: a group in
      use holds the user exactly when the row names its guid. The first
      loop adds where the row names the guid, the second removes where it
      does not; a group is visited once per loop and keeps its guid, so the
      two never undo each other. */
  function PlaceInGroup(t: seq<Group>, g: GroupId, gs: seq<GroupId>, u: UserId, guids: seq<string>): (r: Group)
    requires g < |t|
    ensures r.guid == t[g].guid && r.name == t[g].name
    ensures g !in gs ==> r == t[g]
  {
    if g in gs then t[g].(members := SetMember(t[g].members, u, t[g].guid in guids)) else t[g]
  }

  /** The group table after the two group loops. */
  function PlaceTable(t: seq<Group>, gs: seq<GroupId>, u: UserId, guids: seq<string>, n: nat): (r: seq<Group>)
    requires n <= |t|
    ensures |r| == n
    ensures forall g :: 0 <= g < n ==> r[g] == PlaceInGroup(t, g, gs, u, guids)
  {
    if n == 0 then [] else PlaceTable(t, gs, u, guids, n - 1) + [PlaceInGroup(t, n - 1, gs, u, guids)]
  }

  /** Placing an existing user keeps the client valid. */
  lemma ValidAfterPlaceTable(c: Client, gs: seq<GroupId>, u: UserId, guids: seq<string>)
    requires Valid(c) && u < |c.users|
    ensures Valid(c.(groupTable := PlaceTable(c.groupTable, gs, u, guids, |c.groupTable|)))
  {
    var t := PlaceTable(c.groupTable, gs, u, guids, |c.groupTable|);
    forall g | 0 <= g < |t| ensures IdsBelow(t[g].members, |c.users|) && NoDuplicates(t[g].members) {
      IdsBelowSubsetOr(t[g].members, c.groupTable[g].members, u, |c.users|);
    }
  }

  /** The events of one of the two group loops, in the order of the groups
      in use: `adding` for the first loop, else the second. */
  function GroupEvents(t: seq<Group>, gs: seq<GroupId>, u: UserId, guids: seq<string>, adding: bool): (r: seq<EventArgs>)
    requires IdsBelow(gs, |t|)
    ensures |r| <= |gs|
    ensures forall i :: 0 <= i < |r| ==> r[i].GroupUserEventArgs? && r[i].user == u
    ensures (forall g :: g in gs ==> (t[g].guid in guids <==> u in t[g].members)) ==> r == []
  {
    if |gs| == 0 then []
    else
      var g := gs[0];
      assert forall h :: h in gs[1..] ==> h in gs;
      var rest := GroupEvents(t, gs[1..], u, guids, adding);
      var changes := if adding then t[g].guid in guids && u !in t[g].members else t[g].guid !in guids && u in t[g].members;
      if changes then [NewGroupUserEventArgs(u, g, true)] + rest else rest
  }

  /** The user row's identity part: a user the lookup created takes the
      guid and nickname silently; a known user takes the guid, and a new
      nickname with an event. */
  function SyncUserIdentity(st: SyncState, login: string, nickname: Option<string>, guid: Option<string>): (r: SyncState)
    requires SyncValid(st)
    ensures SyncValid(r) && Grows(st.client, r.client)
    ensures r.lastUser.Some? && r.lastUser.value < |r.client.users|
    ensures ToLower(login) in r.client.cache && r.client.cache[ToLower(login)] == r.lastUser.value
    ensures r.client.users[r.lastUser.value].guid == guid && r.client.users[r.lastUser.value].nickname == nickname
    ensures r.client.lists == st.client.lists && r.client.groups == st.client.groups && r.client.groupTable == st.client.groupTable
    ensures r.refUsers == st.refUsers && r.refGroups == st.refGroups
    ensures r.events == st.events.(nicknameChanged := r.events.nicknameChanged)
  {
    var l := GetUserInner(st.client, login).value;
    var u := l.user;
    var user := l.client.users[u];
    var c := l.client;
    if l.created then
      ValidAfterUserUpdate(c, u, user.(guid := guid, nickname := nickname));
      st.(client := c.(users := c.users[u := user.(guid := guid, nickname := nickname)]), lastUser := Some(u))
    else
      ValidAfterUserUpdate(c, u, user.(guid := guid, nickname := nickname));
      var c1 := c.(users := c.users[u := user.(guid := guid, nickname := nickname)]);
      var ev := if user.nickname != nickname
        then st.events.(nicknameChanged := st.events.nicknameChanged + [NewUserNicknameEventArgs(u, nickname, user.nickname, false)])
        else st.events;
      st.(client := c1, events := ev, lastUser := Some(u))
  }

  /** A client after the membership loops of an `LST` row, with the group
      events they raised. */
  datatype Placement = Placement(client: Client, added: seq<EventArgs>, removed: seq<EventArgs>)

  /** The four membership loops of an `LST` row for user `u`: afterwards
      the user is on exactly the lists the row names and in exactly the
      groups in use whose guid it names. */
  function PlaceUser(c: Client, u: UserId, codes: seq<string>, guids: seq<string>): (r: Placement)
    requires Valid(c) && u < |c.users|
    ensures Valid(r.client) && Grows(c, r.client)
    ensures r.client.users == c.users && r.client.cache == c.cache && r.client.groups == c.groups
    ensures forall k :: u in r.client.lists.Get(k) <==> ListCode(k) in codes
    ensures forall g :: g in r.client.groups ==> (u in r.client.groupTable[g].members <==> r.client.groupTable[g].guid in guids)
  {
    var b := UserOnLists(c, u, codes);
    ValidAfterPlaceTable(b, b.groups, u, guids);
    var t := PlaceTable(b.groupTable, b.groups, u, guids, |b.groupTable|);
    Placement(b.(groupTable := t), GroupEvents(b.groupTable, b.groups, u, guids, true),
              GroupEvents(b.groupTable, b.groups, u, guids, false))
  }

  /** An `LST` row (`UserCommand`): the user's identity, then the four
      membership loops, then the user is referenced and becomes the last
      user. Afterwards the user is on exactly the lists the row names and
      in exactly the groups in use whose guid it names. */
  function SyncUser(st: SyncState, login: string, nickname: Option<string>, guid: Option<string>,
                    codes: seq<string>, guids: seq<string>): (r: SyncState)
    requires SyncValid(st)
    ensures SyncValid(r) && Grows(st.client, r.client)
    ensures r.lastUser.Some? && r.refUsers == st.refUsers + [r.lastUser.value] && r.refGroups == st.refGroups
    ensures ToLower(login) in r.client.cache && r.client.cache[ToLower(login)] == r.lastUser.value
    ensures r.client.groups == st.client.groups
  {
    var s1 := SyncUserIdentity(st, login, nickname, guid);
    var u := s1.lastUser.value;
    var c1 := s1.client;
    var p := PlaceUser(c1, u, codes, guids);
    assert Grows(st.client, p.client) by { GrowsTransitive(st.client, c1, p.client); }
    IdsBelowAppend(s1.refUsers, u, |c1.users|, |p.client.users|);
    IdsBelowWiden(s1.refGroups, |c1.groupTable|, |p.client.groupTable|);
    var ev := s1.events.(addedToList := s1.events.addedToList + ListEvents(c1.lists, u, codes, ListOrder, true),
                         removedFromList := s1.events.removedFromList + ListEvents(c1.lists, u, codes, ListOrder, false),
                         addedToGroup := s1.events.addedToGroup + p.added,
                         removedFromGroup := s1.events.removedFromGroup + p.removed);
    var r := s1.(client := p.client, events := ev, refUsers := s1.refUsers + [u]);
    assert r.client == p.client;
    r
  }

  /** After an `LST` row its user carries the row's guid and nickname, is
      on exactly the lists the row names and in exactly the groups in use
      whose guid it names. */
  lemma SyncUserPlacesUser(st: SyncState, login: string, nickname: Option<string>, guid: Option<string>,
                           codes: seq<string>, guids: seq<string>)
    requires SyncValid(st)
    ensures var r := SyncUser(st, login, nickname, guid, codes, guids);
      var u := r.lastUser.value;
      r.client.users[u].guid == guid && r.client.users[u].nickname == nickname &&
      (forall k :: u in r.client.lists.Get(k) <==> ListCode(k) in codes) &&
      (forall g :: g in r.client.groups ==> (u in r.client.groupTable[g].members <==> r.client.groupTable[g].guid in guids))
  {
    var s1 := SyncUserIdentity(st, login, nickname, guid);
    var p := PlaceUser(s1.client, s1.lastUser.value, codes, guids);
    assert SyncUser(st, login, nickname, guid, codes, guids).client == p.client;
  }

  // ------------------------------------------------------------ LSG rows

  /** The group a sync names, referenced: it is in use and carries the
      row's guid and name; the groups in use before stay in use. */
  predicate ReferencesGroup(st: SyncState, r: SyncState, name: string, guid: string)
    requires SyncValid(r)
  {
    |r.refGroups| == |st.refGroups| + 1 && r.refGroups[..|st.refGroups|] == st.refGroups &&
    var g := r.refGroups[|st.refGroups|];
    g in r.client.groups && r.client.groupTable[g].guid == guid && r.client.groupTable[g].name == name &&
    (forall h :: h in st.client.groups ==> h in r.client.groups)
  }

  /** An `LSG` row for a guid no group in use carries: a new group. */
  function AddSyncGroup(st: SyncState, name: string, guid: string): (r: SyncState)
    requires SyncValid(st)
    ensures SyncValid(r) && Grows(st.client, r.client)
    ensures r.client.users == st.client.users && r.client.lists == st.client.lists && r.refUsers == st.refUsers
    ensures ReferencesGroup(st, r, name, guid)
  {
    var c := st.client;
    var id := |c.groupTable|;
    assert id !in c.groups;
    NoDuplicatesAppend(c.groups, id);
    var c1 := c.(groupTable := c.groupTable + [Group(guid, name, [])], groups := c.groups + [id]);
    assert Valid(c1);
    IdsBelowAppend(st.refGroups, id, |c.groupTable|, |c1.groupTable|);
    assert (st.refGroups + [id])[..|st.refGroups|] == st.refGroups;
    st.(client := c1,
        events := st.events.(groupAdded := st.events.groupAdded + [NewGroupEventArgs(id, true)]),
        refGroups := st.refGroups + [id])
  }

  /** An `LSG` row for the group in use `g`: renamed if its name differs. */
  function RenameSyncGroup(st: SyncState, g: GroupId, name: string): (r: SyncState)
    requires SyncValid(st) && g in st.client.groups
    ensures SyncValid(r) && Grows(st.client, r.client)
    ensures r.client.users == st.client.users && r.client.lists == st.client.lists && r.refUsers == st.refUsers
    ensures ReferencesGroup(st, r, name, st.client.groupTable[g].guid)
  {
    var c := st.client;
    var group := c.groupTable[g];
    IdsBelowAppend(st.refGroups, g, |c.groupTable|, |c.groupTable|);
    assert (st.refGroups + [g])[..|st.refGroups|] == st.refGroups;
    if group.name != name then
      var c1 := c.(groupTable := c.groupTable[g := group.(name := name)]);
      assert Valid(c1);
      st.(client := c1,
          events := st.events.(groupNameChanged := st.events.groupNameChanged +
                                 [NewGroupNameEventArgs(g, name, group.name, true)]),
          refGroups := st.refGroups + [g])
    else
      st.(refGroups := st.refGroups + [g])
  }

  /** An `LSG` row (`GroupCommand`): the group in use with that guid
      (`SingleOrDefault`, which throws on two) is renamed if its name
      differs; with none, a new group is added. Either way it is
      referenced. */
  function SyncGroup(st: SyncState, name: string, guid: string): (r: Result<SyncState, Failure>)
    requires SyncValid(st)
    ensures r.Err? <==> |WithGuid(st.client, st.client.groups, guid)| > 1
    ensures r.Err? ==> r.error == InvalidOperation
    ensures r.Ok? ==> SyncValid(r.value) && Grows(st.client, r.value.client)
    ensures r.Ok? ==> r.value.client.users == st.client.users && r.value.client.lists == st.client.lists
    ensures r.Ok? ==> r.value.refUsers == st.refUsers
    ensures r.Ok? ==> ReferencesGroup(st, r.value, name, guid)
  {
    var matches := WithGuid(st.client, st.client.groups, guid);
    if |matches| > 1 then Err(InvalidOperation)
    else if |matches| == 0 then Ok(AddSyncGroup(st, name, guid))
    else
      assert matches[0] in matches;
      Ok(RenameSyncGroup(st, matches[0], name))
  }

  // ------------------------------------------------- property-like rows

  /** A `BPR` row (`UserPropertyCommand`): a property of the last listed
      user. The key is decoded first; with no user listed yet, the null
      `lastUser` throws. */
  function SyncUserProperty(st: SyncState, key: string, value: string): (r: Result<SyncState, Failure>)
    requires SyncValid(st)
    ensures r.Ok? ==> r.value.refUsers == st.refUsers && r.value.refGroups == st.refGroups
    ensures StringToProperty(key).Err? ==> r == Err(NotSupported)
    ensures StringToProperty(key).Ok? && st.lastUser.None? ==> r == Err(NullReference)
    ensures r.Ok? <==> StringToProperty(key).Ok? && st.lastUser.Some?
    ensures r.Ok? ==> SyncValid(r.value) && r.value.client == st.client.(users := r.value.client.users)
    ensures r.Ok? ==> |r.value.client.users| == |st.client.users|
    ensures r.Ok? ==> GetProperty(r.value.client.users[st.lastUser.value], StringToProperty(key).value) == value
  {
    match StringToProperty(key)
    case Err(f) => Err(f)
    case Ok(p) =>
      if st.lastUser.None? then Err(NullReference)
      else
        var u := st.lastUser.value;
        var c := st.client;
        if GetProperty(c.users[u], p) != value then
          ValidAfterUserUpdate(c, u, SetProperty(c.users[u], p, value));
          Ok(st.(client := c.(users := c.users[u := SetProperty(c.users[u], p, value)]),
                 events := st.events.(propertyChanged := st.events.propertyChanged +
                                        [NewUserPropertyEventArgs(u, p, value, true)])))
        else Ok(st)
  }

  /** A `PRP MFN` row: the local user's nickname. */
  function SyncLocalNickname(st: SyncState, value: string): (r: SyncState)
    requires SyncValid(st)
    ensures r.refUsers == st.refUsers && r.refGroups == st.refGroups
    ensures SyncValid(r) && r.client == st.client.(users := r.client.users) && |r.client.users| == |st.client.users|
    ensures r.client.users[st.client.localUser.value].nickname == Some(value)
    ensures st.client.users[st.client.localUser.value].nickname == Some(value) ==> r == st
  {
    var local := st.client.localUser.value;
    var c := st.client;
    var prev := c.users[local].nickname;
    if prev != Some(value) then
      ValidAfterUserUpdate(c, local, c.users[local].(nickname := Some(value)));
      st.(client := c.(users := c.users[local := c.users[local].(nickname := Some(value))]),
          events := st.events.(nicknameChanged := st.events.nicknameChanged +
                                 [NewUserNicknameEventArgs(local, Some(value), prev, true)]))
    else st
  }

  /** Any other `PRP` row: a property of the local user. */
  function SyncLocalProperty(st: SyncState, key: string, value: string): (r: Result<SyncState, Failure>)
    requires SyncValid(st)
    ensures r.Ok? ==> r.value.refUsers == st.refUsers && r.value.refGroups == st.refGroups
    ensures r.Err? <==> StringToProperty(key).Err?
    ensures r.Err? ==> r.error == NotSupported
    ensures r.Ok? ==> SyncValid(r.value) && r.value.client == st.client.(users := r.value.client.users)
    ensures r.Ok? ==> |r.value.client.users| == |st.client.users|
    ensures r.Ok? ==> GetProperty(r.value.client.users[st.client.localUser.value], StringToProperty(key).value) == value
  {
    var p :- StringToProperty(key);
    var local := st.client.localUser.value;
    var c := st.client;
    if GetProperty(c.users[local], p) != value then
      ValidAfterUserUpdate(c, local, SetProperty(c.users[local], p, value));
      Ok(st.(client := c.(users := c.users[local := SetProperty(c.users[local], p, value)]),
             events := st.events.(propertyChanged := st.events.propertyChanged +
                                    [NewUserPropertyEventArgs(local, p, value, true)])))
    else Ok(st)
  }

  /** A `BLP` or `GTC` row (`PrivacySettingCommand`). */
  function SyncPrivacy(st: SyncState, key: string, value: string): (r: Result<SyncState, Failure>)
    requires SyncValid(st)
    ensures r.Ok? ==> r.value.refUsers == st.refUsers && r.value.refGroups == st.refGroups
    ensures r.Err? <==> StringToPrivacySetting(key).Err?
    ensures r.Err? ==> r.error == NotSupported
    ensures r.Ok? ==> SyncValid(r.value) && r.value.client == st.client.(privacy := r.value.client.privacy)
    ensures r.Ok? ==> GetPrivacy(r.value.client, StringToPrivacySetting(key).value) == value
    ensures r.Ok? ==> forall t :: t != StringToPrivacySetting(key).value ==> GetPrivacy(r.value.client, t) == GetPrivacy(st.client, t)
  {
    var s :- StringToPrivacySetting(key);
    if GetPrivacy(st.client, s) != value then
      Ok(st.(client := SetPrivacy(st.client, s, value),
             events := st.events.(privacyChanged := st.events.privacyChanged +
                                    [NewPrivacySettingEventArgs(s, value, true)])))
    else Ok(st)
  }

  /** An offline `MSG` row: the payload is parsed and kept as a login
      message event. */
  function SyncMessage(st: SyncState, sender: string, nickname: string, payload: seq<byte>): (r: Result<SyncState, Failure>)
    requires SyncValid(st)
    ensures r.Err? <==> Messages.Parse(payload).Err?
    ensures r.Err? ==> r.error == Messages.Parse(payload).error
    ensures r.Ok? ==> r.value == st.(events := st.events.(messages := st.events.messages +
                       [MessageEventArgs(None, Messages.Parse(payload).value, Some(sender), Some(nickname), true)]))
  {
    var m :- Messages.Parse(payload);
    Ok(st.(events := st.events.(messages := st.events.messages + [NewLoginMessageEventArgs(sender, nickname, m, true)])))
  }

  /** A row that names no contact: a property, a privacy setting, an
      offline message, or a row of any other class (`SBS` among them),
      which is ignored. */
  function SyncOtherRow(st: SyncState, b: C.Body): (r: Result<SyncState, Failure>)
    requires SyncValid(st) && !b.User? && !b.Group?
    ensures r.Ok? ==> SyncValid(r.value) && Grows(st.client, r.value.client)
    ensures r.Ok? ==> r.value.client.groups == st.client.groups
    ensures r.Ok? ==> r.value.refUsers == st.refUsers && r.value.refGroups == st.refGroups
    ensures !(b.UserProperty? || b.LocalProperty? || b.PrivacySetting? || b.Message?) ==> r == Ok(st)
  {
    match b
    case UserProperty(key, value) => SyncUserProperty(st, key, value)
    case LocalProperty(key, value) =>
      if key == "MFN" then Ok(SyncLocalNickname(st, value)) else SyncLocalProperty(st, key, value)
    case PrivacySetting(key, value) => SyncPrivacy(st, key, value)
    case Message(sender, nickname, payload) => SyncMessage(st, sender, nickname, payload)
    case _ => Ok(st)
  }

  /** One row of the sync. */
  function SyncRow(st: SyncState, b: C.Body): (r: Result<SyncState, Failure>)
    requires SyncValid(st)
    ensures r.Ok? ==> SyncValid(r.value) && Grows(st.client, r.value.client)
    ensures r.Ok? ==> forall h :: h in st.client.groups ==> h in r.value.client.groups
    ensures r.Ok? && !b.User? ==> r.value.refUsers == st.refUsers
    ensures r.Ok? && !b.Group? ==> r.value.refGroups == st.refGroups
    ensures r.Ok? && b.User? ==> r.value.lastUser.Some? && r.value.refUsers == st.refUsers + [r.value.lastUser.value]
    ensures r.Ok? && b.User? ==> ToLower(b.loginName) in r.value.client.cache &&
                                 r.value.client.cache[ToLower(b.loginName)] == r.value.lastUser.value
    ensures r.Ok? && b.Group? ==> ReferencesGroup(st, r.value, b.name, b.guid)
  {
    if b.User? then Ok(SyncUser(st, b.loginName, b.userNickname, b.userGuid, b.lists, b.groups))
    else if b.Group? then SyncGroup(st, b.name, b.guid)
    else SyncOtherRow(st, b)
  }

  /** The `foreach` over the gathered rows; the first failing row ends the
      sync with its exception. */
  function SyncRows(st: SyncState, rows: seq<C.Body>): (r: Result<SyncState, Failure>)
    requires SyncValid(st)
    ensures r.Ok? ==> SyncValid(r.value) && Grows(st.client, r.value.client)
    ensures r.Ok? ==> forall h :: h in st.client.groups ==> h in r.value.client.groups
    decreases |rows|
  {
    if |rows| == 0 then Ok(st)
    else
      var s1 :- SyncRow(st, rows[0]);
      var r := SyncRows(s1, rows[1..]);
      if r.Ok? then
        GrowsTransitive(st.client, s1.client, r.value.client);
        r
      else r
  }

  /** A name in the first row or in the later rows is a name in the rows. */
  lemma NamedUserInRows(c: Client, rows: seq<C.Body>, v: UserId)
    requires |rows| > 0
    requires NamedUser(c, rows[1..], v) ||
             (rows[0].User? && ToLower(rows[0].loginName) in c.cache && c.cache[ToLower(rows[0].loginName)] == v)
    ensures NamedUser(c, rows, v)
  {
    if !(rows[0].User? && ToLower(rows[0].loginName) in c.cache && c.cache[ToLower(rows[0].loginName)] == v) {
      var i :| 0 <= i < |rows[1..]| && rows[1..][i].User? && ToLower(rows[1..][i].loginName) in c.cache &&
               c.cache[ToLower(rows[1..][i].loginName)] == v;
      assert rows[1..][i] == rows[i + 1];
    }
  }

  lemma NamedGroupInRows(c: Client, rows: seq<C.Body>, g: GroupId)
    requires |rows| > 0 && g < |c.groupTable|
    requires NamedGroup(c, rows[1..], g) || (rows[0].Group? && rows[0].guid == c.groupTable[g].guid)
    ensures NamedGroup(c, rows, g)
  {
    if !(rows[0].Group? && rows[0].guid == c.groupTable[g].guid) {
      var i :| 0 <= i < |rows[1..]| && rows[1..][i].Group? && rows[1..][i].guid == c.groupTable[g].guid;
      assert rows[1..][i] == rows[i + 1];
    }
  }

  /** Over all rows: every user the rows reference was already referenced
      or is named by one of them. */
  lemma {:induction false} SyncRowsReferenceNamedUsers(st: SyncState, rows: seq<C.Body>)
    requires SyncValid(st) && SyncRows(st, rows).Ok?
    ensures var r := SyncRows(st, rows).value;
      forall v :: v in r.refUsers ==> v in st.refUsers || NamedUser(r.client, rows, v)
    decreases |rows|
  {
    if |rows| > 0 {
      var s1 := SyncRow(st, rows[0]).value;
      SyncRowsReferenceNamedUsers(s1, rows[1..]);
      var r := SyncRows(s1, rows[1..]).value;
      assert r == SyncRows(st, rows).value;
      UserRowNamesUser(st, s1, r, rows);
    }
  }

  /** One step of the induction above: the first row references at most
      the user it names, and the later rows keep that name in the cache. */
  lemma UserRowNamesUser(st: SyncState, s1: SyncState, r: SyncState, rows: seq<C.Body>)
    requires |rows| > 0 && Grows(s1.client, r.client)
    requires rows[0].User? ==>
      s1.lastUser.Some? && s1.refUsers == st.refUsers + [s1.lastUser.value] &&
      ToLower(rows[0].loginName) in s1.client.cache && s1.client.cache[ToLower(rows[0].loginName)] == s1.lastUser.value
    requires !rows[0].User? ==> s1.refUsers == st.refUsers
    requires forall v :: v in r.refUsers ==> v in s1.refUsers || NamedUser(r.client, rows[1..], v)
    ensures forall v :: v in r.refUsers ==> v in st.refUsers || NamedUser(r.client, rows, v)
  {
    forall v | v in r.refUsers && v !in st.refUsers ensures NamedUser(r.client, rows, v) {
      NamedUserInRows(r.client, rows, v);
    }
  }

  /** Over all rows: every group the rows reference was already referenced
      or carries the guid of one of them. */
  lemma {:induction false} SyncRowsReferenceNamedGroups(st: SyncState, rows: seq<C.Body>)
    requires SyncValid(st) && SyncRows(st, rows).Ok?
    ensures var r := SyncRows(st, rows).value;
      forall g :: g in r.refGroups ==> g in st.refGroups || NamedGroup(r.client, rows, g)
    decreases |rows|
  {
    if |rows| > 0 {
      var b := rows[0];
      var s1 := SyncRow(st, b).value;
      SyncRowsReferenceNamedGroups(s1, rows[1..]);
      var r := SyncRows(s1, rows[1..]).value;
      assert r == SyncRows(st, rows).value;
      forall g | g in r.refGroups && g !in st.refGroups ensures NamedGroup(r.client, rows, g) {
        if g in s1.refGroups {
          assert b.Group? && s1.refGroups == st.refGroups + [s1.refGroups[|st.refGroups|]];
          assert g == s1.refGroups[|st.refGroups|];
          assert r.client.groupTable[g].guid == s1.client.groupTable[g].guid;
        }
        NamedGroupInRows(r.client, rows, g);
      }
    }
  }

  // ------------------------------------------------------------- cleanup

  /** The events for removals, one per removed object, in order. */
  function GroupRemovedEvents(gs: seq<GroupId>): (r: seq<EventArgs>)
    ensures |r| == |gs|
    ensures forall i :: 0 <= i < |gs| ==> r[i] == GroupEventArgs(gs[i], false)
  {
    if |gs| == 0 then [] else [NewGroupEventArgs(gs[0], true)] + GroupRemovedEvents(gs[1..])
  }

  function ListRemovedEvents(us: seq<UserId>, k: ListKind): (r: seq<EventArgs>)
    ensures |r| == |us|
    ensures forall i :: 0 <= i < |us| ==> r[i] == UserListUserEventArgs(us[i], k, false)
  {
    if |us| == 0 then [] else [NewUserListUserEventArgs(us[0], k, true)] + ListRemovedEvents(us[1..], k)
  }

  function GroupUserRemovedEvents(us: seq<UserId>, g: GroupId): (r: seq<EventArgs>)
    ensures |r| == |us|
    ensures forall i :: 0 <= i < |us| ==> r[i] == GroupUserEventArgs(us[i], g, true)
  {
    if |us| == 0 then [] else [NewGroupUserEventArgs(us[0], g, true)] + GroupUserRemovedEvents(us[1..], g)
  }

  /** One collection after the cleanup: the elements no row named are
      removed, one `Remove` each, in the order `Except` yields them. */
  function Prune(s: seq<nat>, refs: seq<nat>): (r: seq<nat>)
    ensures NoDuplicates(s) ==> NoDuplicates(r)
    ensures NoDuplicates(s) ==> forall y :: y in r <==> y in s && y in refs
    ensures forall y :: y in r ==> y in s
    ensures |Except(s, refs)| == 0 ==> r == s
  {
    RemoveAll(s, Except(s, refs))
  }

  /** Every list loses the users no row named. */
  function PruneLists(c: Client, refUsers: seq<UserId>): (r: Client)
    requires Valid(c)
    ensures Valid(r) && r == c.(lists := r.lists)
    ensures forall k :: r.lists.Get(k) == Prune(c.lists.Get(k), refUsers)
    ensures (forall k :: |Except(c.lists.Get(k), refUsers)| == 0) ==> r == c
  {
    var l2 := MapLists(k => Prune(c.lists.Get(k), refUsers));
    forall k: ListKind ensures IdsBelow(l2.Get(k), |c.users|) && NoDuplicates(l2.Get(k)) {
      IdsBelowSubset(l2.Get(k), c.lists.Get(k), |c.users|);
    }
    ValidAfterListsUpdate(c, l2);
    assert (forall k :: |Except(c.lists.Get(k), refUsers)| == 0) ==> l2 == c.lists;
    c.(lists := l2)
  }

  /** The removal events of the list loop, list by list. */
  function PruneListEvents(l: Lists, refUsers: seq<UserId>, ks: seq<ListKind>): (r: seq<EventArgs>)
    ensures (forall k :: k in ks ==> |Except(l.Get(k), refUsers)| == 0) ==> r == []
  {
    if |ks| == 0 then []
    else ListRemovedEvents(Except(l.Get(ks[0]), refUsers), ks[0]) + PruneListEvents(l, refUsers, ks[1..])
  }

  /** One group after the cleanup: pruned when it is among the groups in
      use, else as it was. */
  function PruneGroup(t: seq<Group>, g: GroupId, gs: seq<GroupId>, refUsers: seq<UserId>): (r: Group)
    requires g < |t|
    ensures r.guid == t[g].guid && r.name == t[g].name
  {
    if g in gs then t[g].(members := Prune(t[g].members, refUsers)) else t[g]
  }

  /** The group table after the group loop. Each group in `gs` (no group
      twice) is pruned once, against its members as they were, so the
      loop's result does not depend on its order. */
  function PruneTable(t: seq<Group>, gs: seq<GroupId>, refUsers: seq<UserId>, n: nat): (r: seq<Group>)
    requires n <= |t|
    ensures |r| == n
    ensures forall g :: 0 <= g < n ==> r[g] == PruneGroup(t, g, gs, refUsers)
  {
    if n == 0 then [] else PruneTable(t, gs, refUsers, n - 1) + [PruneGroup(t, n - 1, gs, refUsers)]
  }

  /** Pruning the groups keeps the client valid. */
  lemma ValidAfterPruneTable(c: Client, gs: seq<GroupId>, refUsers: seq<UserId>)
    requires Valid(c)
    ensures Valid(c.(groupTable := PruneTable(c.groupTable, gs, refUsers, |c.groupTable|)))
  {
    var t := PruneTable(c.groupTable, gs, refUsers, |c.groupTable|);
    forall g | 0 <= g < |t| ensures IdsBelow(t[g].members, |c.users|) && NoDuplicates(t[g].members) {
      IdsBelowSubset(t[g].members, c.groupTable[g].members, |c.users|);
    }
  }

  /** The removal events of the group loop, group by group. */
  function PruneGroupEvents(t: seq<Group>, gs: seq<GroupId>, refUsers: seq<UserId>): (r: seq<EventArgs>)
    requires IdsBelow(gs, |t|)
    ensures (forall g :: g in gs ==> |Except(t[g].members, refUsers)| == 0) ==> r == []
  {
    if |gs| == 0 then []
    else
      assert forall h :: h in gs[1..] ==> h in gs;
      GroupUserRemovedEvents(Except(t[gs[0]].members, refUsers), gs[0]) + PruneGroupEvents(t, gs[1..], refUsers)
  }

  /** The cleanup after the rows, with each difference taken before
      anything is removed: the groups no row named leave `Groups`, then
      every list and every remaining group loses the users no row named. */
  function Cleanup(st: SyncState): (r: SyncState)
    requires SyncValid(st)
    ensures SyncValid(r) && r.client.users == st.client.users && r.client.cache == st.client.cache
    ensures Grows(st.client, r.client) && Grows(r.client, st.client)
    ensures r.refUsers == st.refUsers && r.refGroups == st.refGroups
    ensures r.events.groupRemoved == st.events.groupRemoved + GroupRemovedEvents(Except(st.client.groups, st.refGroups))
  {
    var c := st.client;
    var gs := Prune(c.groups, st.refGroups);
    IdsBelowSubset(gs, c.groups, |c.groupTable|);
    var c1 := c.(groups := gs);
    assert Valid(c1);
    var l := PruneLists(c1, st.refUsers);
    ValidAfterPruneTable(l, gs, st.refUsers);
    var m := l.(groupTable := PruneTable(c.groupTable, gs, st.refUsers, |c.groupTable|));
    st.(client := m, events := CleanupEvents(st))
  }

  /** The events of the cleanup: the groups leaving `Groups`, then the
      users leaving the lists, then the users leaving the groups in use. */
  function CleanupEvents(st: SyncState): (r: SyncEvents)
    requires SyncValid(st)
    ensures r.groupRemoved == st.events.groupRemoved + GroupRemovedEvents(Except(st.client.groups, st.refGroups))
    ensures NothingStale(st) ==> r == st.events
  {
    var c := st.client;
    var gs := Prune(c.groups, st.refGroups);
    IdsBelowSubset(gs, c.groups, |c.groupTable|);
    WithRemovals(st.events, GroupRemovedEvents(Except(c.groups, st.refGroups)),
                 PruneListEvents(c.lists, st.refUsers, ListOrder),
                 PruneGroupEvents(c.groupTable, gs, st.refUsers))
  }

  /** The events with removals appended; nothing changes when there are
      none. */
  function WithRemovals(e: SyncEvents, groups: seq<EventArgs>, fromLists: seq<EventArgs>, fromGroups: seq<EventArgs>):
    (r: SyncEvents)
    ensures r.groupRemoved == e.groupRemoved + groups
    ensures groups == [] && fromLists == [] && fromGroups == [] ==> r == e
  {
    var r := e.(groupRemoved := e.groupRemoved + groups,
                removedFromList := e.removedFromList + fromLists,
                removedFromGroup := e.removedFromGroup + fromGroups);
    if groups == [] && fromLists == [] && fromGroups == [] then
      assert e.groupRemoved + groups == e.groupRemoved;
      assert e.removedFromList + fromLists == e.removedFromList;
      assert e.removedFromGroup + fromGroups == e.removedFromGroup;
      r
    else r
  }

  /** After the cleanup the groups in use, the lists and the members of
      each group in use are exactly those before that some row referenced. */
  lemma CleanupKeepsReferenced(st: SyncState)
    requires SyncValid(st)
    ensures var r := Cleanup(st).client;
      forall g :: g in r.groups <==> g in st.client.groups && g in st.refGroups
    ensures var r := Cleanup(st).client;
      forall k, v :: v in r.lists.Get(k) <==> v in st.client.lists.Get(k) && v in st.refUsers
    ensures var r := Cleanup(st).client;
      forall g, v :: g in r.groups ==>
        (v in r.groupTable[g].members <==> v in st.client.groupTable[g].members && v in st.refUsers)
  {
    var c := st.client;
    var gs := Prune(c.groups, st.refGroups);
    IdsBelowSubset(gs, c.groups, |c.groupTable|);
    var l := PruneLists(c.(groups := gs), st.refUsers);
    var t := PruneTable(c.groupTable, gs, st.refUsers, |c.groupTable|);
    var r := Cleanup(st).client;
    assert r == l.(groupTable := t);
    forall g, v | g in r.groups
      ensures v in r.groupTable[g].members <==> v in c.groupTable[g].members && v in st.refUsers
    {
      assert g in c.groups;
      assert r.groupTable[g] == PruneGroup(c.groupTable, g, gs, st.refUsers);
    }
  }

  /** Whether the cleanup has nothing to remove. */
  predicate NothingStale(st: SyncState)
    requires SyncValid(st)
  {
    var c := st.client;
    |Except(c.groups, st.refGroups)| == 0 &&
    (forall k :: |Except(c.lists.Get(k), st.refUsers)| == 0) &&
    (forall g :: g in c.groups ==> |Except(c.groupTable[g].members, st.refUsers)| == 0)
  }

  /** With nothing to remove every pruning step is the identity. */
  lemma NothingStalePrunesNothing(st: SyncState)
    requires SyncValid(st) && NothingStale(st)
    ensures var c := st.client;
      Prune(c.groups, st.refGroups) == c.groups && PruneLists(c, st.refUsers) == c &&
      PruneTable(c.groupTable, c.groups, st.refUsers, |c.groupTable|) == c.groupTable
  {
    var c := st.client;
    var t := PruneTable(c.groupTable, c.groups, st.refUsers, |c.groupTable|);
    forall g | 0 <= g < |t| ensures t[g] == c.groupTable[g] {
      if g in c.groups {
        assert Prune(c.groupTable[g].members, st.refUsers) == c.groupTable[g].members;
      }
    }
    assert t == c.groupTable;
  }

  /** With nothing to remove the cleanup leaves the client as it was. */
  lemma CleanupKeepsClient(st: SyncState)
    requires SyncValid(st) && NothingStale(st)
    ensures Cleanup(st).client == st.client
  {
    NothingStalePrunesNothing(st);
    var c := st.client;
    assert c.(groups := Prune(c.groups, st.refGroups)) == c;
  }

  /** With nothing to remove the cleanup changes nothing. */
  lemma CleanupRemovesNothing(st: SyncState)
    requires SyncValid(st) && NothingStale(st)
    ensures Cleanup(st) == st
  {
    CleanupKeepsClient(st);
    var r := Cleanup(st);
    assert r == st.(client := r.client, events := r.events);
  }

  /** The cleanup as the library writes it: each difference is a lazy
      `Except` over the very list the loop body removes from, so the
      enumerator throws on the step after the first removal. It completes
      only when there is nothing to remove. */
  function CleanupAsWritten(st: SyncState): (r: Result<SyncState, Failure>)
    requires SyncValid(st)
    ensures r.Ok? <==> NothingStale(st)
    ensures r.Ok? ==> r.value == st && r.value == Cleanup(st)
    ensures r.Err? ==> r.error == InvalidOperation
  {
    if NothingStale(st) then
      CleanupRemovesNothing(st);
      Ok(st)
    else Err(InvalidOperation)
  }

  /** A contact list whose only group no longer exists on the server: the
      cleanup as written throws instead of removing it. */
  lemma StaleGroupBreaksCleanup()
    ensures var c := NewClient.(users := [NewUser("a@b.c")], localUser := Some(0),
                                groupTable := [Group("g1", "Friends", [])], groups := [0]);
      var st := SyncState(c, NoSyncEvents, [], [], None);
      SyncValid(st) && CleanupAsWritten(st) == Err(InvalidOperation) && Cleanup(st).client.groups == []
  {
    var c := NewClient.(users := [NewUser("a@b.c")], localUser := Some(0),
                        groupTable := [Group("g1", "Friends", [])], groups := [0]);
    var st := SyncState(c, NoSyncEvents, [], [], None);
    assert 0 in Except(c.groups, st.refGroups);
    assert !NothingStale(st);
    CleanupKeepsReferenced(st);
  }

  // ---------------------------------------------------------------- sync

  /** After the cleanup every listed user and every group in use is one
      the rows referenced, named as before. */
  lemma CleanupKeepsNames(st: SyncState, rows: seq<C.Body>)
    requires SyncValid(st)
    requires forall v :: v in st.refUsers ==> NamedUser(st.client, rows, v)
    requires forall g :: g in st.refGroups ==> NamedGroup(st.client, rows, g)
    ensures forall k, v :: v in Cleanup(st).client.lists.Get(k) ==> NamedUser(Cleanup(st).client, rows, v)
    ensures forall g :: g in Cleanup(st).client.groups ==> NamedGroup(Cleanup(st).client, rows, g)
  {
    var d := Cleanup(st).client;
    CleanupKeepsReferenced(st);
    forall k, v | v in d.lists.Get(k) ensures NamedUser(d, rows, v) {
      assert NamedUser(st.client, rows, v);
    }
    forall g | g in d.groups ensures NamedGroup(d, rows, g) {
      assert NamedGroup(st.client, rows, g);
      assert d.groupTable[g].guid == st.client.groupTable[g].guid;
    }
  }

  /** Growth is transitive. */
  lemma GrowsTransitive(a: Client, b: Client, d: Client)
    requires Grows(a, b) && Grows(b, d)
    ensures Grows(a, d)
  {
  }

  /** The rows and then the cleanup leave only users and groups the rows
      name. */
  lemma SyncKeepsNames(c: Client, rows: seq<C.Body>)
    requires Valid(c) && !c.closed && c.localUser.Some?
    requires SyncRows(SyncState(c, NoSyncEvents, [], [], None), rows).Ok?
    ensures var d := Cleanup(SyncRows(SyncState(c, NoSyncEvents, [], [], None), rows).value).client;
      (forall k, v :: v in d.lists.Get(k) ==> NamedUser(d, rows, v)) &&
      (forall g :: g in d.groups ==> NamedGroup(d, rows, g))
  {
    var st0 := SyncState(c, NoSyncEvents, [], [], None);
    SyncRowsReferenceNamedUsers(st0, rows);
    SyncRowsReferenceNamedGroups(st0, rows);
    CleanupKeepsNames(SyncRows(st0, rows).value, rows);
  }

  /** `ProcessSyncCommands` as intended: the rows in order, then the
      corrected cleanup. The rows are the whole contact list: afterwards
      every user on a list is named by an `LST` row and every group in use
      by an `LSG` row, and each failing row's exception ends the sync. */
  function ProcessSyncCommands(c: Client, rows: seq<C.Body>): (r: Result<(Client, SyncEvents), Failure>)
    requires Valid(c) && !c.closed && c.localUser.Some?
    ensures r.Err? <==> SyncRows(SyncState(c, NoSyncEvents, [], [], None), rows).Err?
    ensures r.Ok? ==> Valid(r.value.0) && Grows(c, r.value.0)
    ensures r.Ok? ==> forall k, v :: v in r.value.0.lists.Get(k) ==> NamedUser(r.value.0, rows, v)
    ensures r.Ok? ==> forall g :: g in r.value.0.groups ==> NamedGroup(r.value.0, rows, g)
  {
    var st :- SyncRows(SyncState(c, NoSyncEvents, [], [], None), rows);
    var done := Cleanup(st);
    GrowsTransitive(c, st.client, done.client);
    SyncKeepsNames(c, rows);
    Ok((done.client, done.events))
  }

  /** `ProcessSyncCommands` as the library writes it: the rows in order,
      then the cleanup as written, which throws as soon as anything is
      stale. When it completes it agrees with the intended sync. */
  function ProcessSyncCommandsAsWritten(c: Client, rows: seq<C.Body>): (r: Result<(Client, SyncEvents), Failure>)
    requires Valid(c) && !c.closed && c.localUser.Some?
    ensures var s := SyncRows(SyncState(c, NoSyncEvents, [], [], None), rows);
      r.Err? <==> s.Err? || !NothingStale(s.value)
    ensures var s := SyncRows(SyncState(c, NoSyncEvents, [], [], None), rows);
      s.Ok? && !NothingStale(s.value) ==> r == Err(InvalidOperation)
    ensures r.Ok? ==> r == ProcessSyncCommands(c, rows)
  {
    var st :- SyncRows(SyncState(c, NoSyncEvents, [], [], None), rows);
    var done :- CleanupAsWritten(st);
    Ok((done.client, done.events))
  }
}

/** The roster a `MessengerClient` holds (MessengerClient.cs, UserLists.cs,
    Groups.cs) as one immutable record: every `User` object created so far,
    the login-name cache that makes user identity case-insensitive, the five
    user lists, the groups, and the privacy settings. */
module Roster {

  import opened Wrappers
  import opened Failures
  import opened Text
  import opened Enums
  import opened Users
  import opened Collections
  import opened Events
  import C = Commands

  /** A `Group` object's state. */
  datatype Group = Group(guid: string, name: string, members: seq<UserId>)

  /** The five `UserList`s, each holding its `Users` collection. */
  datatype Lists = Lists(allow: seq<UserId>, block: seq<UserId>, forward: seq<UserId>,
                         reverse: seq<UserId>, pending: seq<UserId>)
  {
    function Get(k: ListKind): seq<UserId> {
      match k
      case AllowList => allow
      case BlockList => block
      case ForwardList => forward
      case ReverseList => reverse
      case PendingList => pending
    }

    /** The lists with list `k` replaced and the other four unchanged. */
    function With(k: ListKind, s: seq<UserId>): (r: Lists)
      ensures r.Get(k) == s
      ensures forall j :: j != k ==> r.Get(j) == Get(j)
    {
      match k
      case AllowList => this.(allow := s)
      case BlockList => this.(block := s)
      case ForwardList => this.(forward := s)
      case ReverseList => this.(reverse := s)
      case PendingList => this.(pending := s)
    }
  }

  const NoLists: Lists := Lists([], [], [], [], [])

  /** `UserLists` adds its lists in this order. */
  const ListOrder: seq<ListKind> := [AllowList, BlockList, ForwardList, ReverseList, PendingList]

  /** The `listCode` each `UserList` subclass passes to its base. */
  function ListCode(k: ListKind): (code: string)
    ensures |code| == 2
  {
    match k
    case AllowList => "AL"
    case BlockList => "BL"
    case ForwardList => "FL"
    case ReverseList => "RL"
    case PendingList => "PL"
  }

  /** The collection holds each of the five lists exactly once, and the
      list codes tell them apart. */
  lemma ListOrderIsComplete(k: ListKind, j: ListKind)
    ensures |ListOrder| == 5 && NoDuplicates(ListOrder) && k in ListOrder
    ensures ListCode(k) == ListCode(j) <==> k == j
  {
  }

  /** The client's state. `users[i]` is the `User` object with id `i`;
      `groupTable[g]` the `Group` object with id `g`; `groups` is the
      `Groups` collection, which lists the groups in use. `stamp1` and
      `stamp2` are the time stamps of the last contact-list sync. */
  datatype Client = Client(
    closed: bool,
    loggedIn: bool,
    users: seq<User>,
    cache: map<string, UserId>,
    localUser: Option<UserId>,
    lists: Lists,
    groupTable: seq<Group>,
    groups: seq<GroupId>,
    privacy: map<PrivacySetting, string>,
    stamp1: Option<string>,
    stamp2: Option<string>)

  /** `new MessengerClient(credentials)`. */
  const NewClient: Client := Client(false, false, [], map[], None, NoLists, [], [], map[], None, None)

  predicate IdsBelow(s: seq<nat>, n: nat) {
    forall i :: 0 <= i < |s| ==> s[i] < n
  }

  /** A list whose elements all occur in a list of valid ids is valid. */
  lemma IdsBelowSubset(s: seq<nat>, t: seq<nat>, n: nat)
    requires IdsBelow(t, n) && forall y :: y in s ==> y in t
    ensures IdsBelow(s, n)
  {
    forall i | 0 <= i < |s| ensures s[i] < n {
      assert s[i] in t;
    }
  }

  /** Every reference names an existing object, and no collection holds an
      object twice. */
  predicate Valid(c: Client) {
    (forall k: ListKind :: IdsBelow(c.lists.Get(k), |c.users|) && NoDuplicates(c.lists.Get(k))) &&
    IdsBelow(c.groups, |c.groupTable|) && NoDuplicates(c.groups) &&
    (forall g :: 0 <= g < |c.groupTable| ==>
       IdsBelow(c.groupTable[g].members, |c.users|) && NoDuplicates(c.groupTable[g].members)) &&
    (forall name :: name in c.cache ==> c.cache[name] < |c.users|) &&
    (c.localUser.Some? ==> c.localUser.value < |c.users|)
  }

  lemma NewClientIsValid()
    ensures Valid(NewClient)
  {
  }

  /** A new object at the end of the user table invalidates no reference. */
  lemma ValidAfterNewUser(c: Client, u: User)
    requires Valid(c)
    ensures Valid(c.(users := c.users + [u]))
  {
  }

  /** Replacing a user's state keeps every reference valid. */
  lemma ValidAfterUserUpdate(c: Client, id: UserId, u: User)
    requires id < |c.users|
    ensures Valid(c) ==> Valid(c.(users := c.users[id := u]))
  {
  }

  /** Replacing one list by a duplicate-free list of existing users keeps
      every reference valid. */
  lemma ValidAfterListUpdate(c: Client, k: ListKind, s: seq<UserId>)
    requires Valid(c) && IdsBelow(s, |c.users|) && NoDuplicates(s)
    ensures Valid(c.(lists := c.lists.With(k, s)))
  {
  }

  /** Replacing one group's members likewise. */
  lemma ValidAfterMembersUpdate(c: Client, g: GroupId, s: seq<UserId>)
    requires Valid(c) && g < |c.groupTable| && IdsBelow(s, |c.users|) && NoDuplicates(s)
    ensures Valid(c.(groupTable := c.groupTable[g := c.groupTable[g].(members := s)]))
  {
  }

  // ------------------------------------------------------------ user cache

  /** The outcome of `GetUserInner(loginName, out user)`: the client
      afterwards, the user, and whether it was created. */
  datatype Lookup = Lookup(client: Client, user: UserId, created: bool)

  /** `GetUserInner`: the login name is lowercased and looked up; a hit
      returns the cached user, a miss creates a user under the lowercased
      name and caches it. After `Close` the cache is null. */
  function GetUserInner(c: Client, loginName: string): (r: Result<Lookup, Failure>)
    requires Valid(c)
    ensures c.closed <==> r.Err?
    ensures r.Err? ==> r.error == ArgumentNull
    ensures r.Ok? ==> Valid(r.value.client) && r.value.user < |r.value.client.users|
    ensures r.Ok? ==> ToLower(loginName) in r.value.client.cache &&
                      r.value.client.cache[ToLower(loginName)] == r.value.user
    ensures r.Ok? ==> (r.value.created <==> ToLower(loginName) !in c.cache)
    ensures r.Ok? && !r.value.created ==> r.value.client == c
    ensures r.Ok? && r.value.created ==>
      r.value.user == |c.users| &&
      r.value.client == c.(users := c.users + [NewUser(ToLower(loginName))],
                           cache := c.cache[ToLower(loginName) := |c.users|])
  {
    if c.closed then Err(ArgumentNull)
    else
      var key := ToLower(loginName);
      if key in c.cache then Ok(Lookup(c, c.cache[key], false))
      else
        var id := |c.users|;
        Ok(Lookup(c.(users := c.users + [NewUser(key)], cache := c.cache[key := id]), id, true))
  }

  /** Two lookups whose names differ only in letter case yield the same
      user, and the second creates nothing. */
  lemma GetUserIsCaseInsensitive(c: Client, a: string, b: string)
    requires Valid(c) && !c.closed && EqualIgnoringCase(a, b)
    ensures GetUserInner(GetUserInner(c, a).value.client, b).value.user == GetUserInner(c, a).value.user
    ensures !GetUserInner(GetUserInner(c, a).value.client, b).value.created
  {
    ToLowerCaseInsensitive(a, b);
  }

  /** A created user carries the lowercased login name and the defaults of
      a new `User`. */
  lemma CreatedUserIsLowercased(c: Client, loginName: string)
    requires Valid(c) && !c.closed && ToLower(loginName) !in c.cache
    ensures var l := GetUserInner(c, loginName).value;
      l.created && l.client.users[l.user] == NewUser(ToLower(loginName))
  {
  }

  /** `UpdateNicknameFromIM`: a switchboard nickname is taken only for
      users the local user has not put in the forward list. */
  function UpdateNicknameFromIM(c: Client, id: UserId, nickname: string): (r: Client)
    requires id < |c.users|
    ensures id in c.lists.forward ==> r == c
    ensures r.(users := c.users) == c && |r.users| == |c.users|
    ensures forall j :: 0 <= j < |c.users| && j != id ==> r.users[j] == c.users[j]
    ensures id !in c.lists.forward ==> r.users[id] == c.users[id].(nickname := Some(nickname))
  {
    if id in c.lists.forward then c
    else c.(users := c.users[id := c.users[id].(nickname := Some(nickname))])
  }

  // -------------------------------------------------------------- privacy

  /** `AcceptInvitationsFromAllUsers` and the other setting values. */
  const AcceptInvitationsFromAllUsers: string := "AL"
  const AcceptInvitationsFromAllowedUsersOnly: string := "BL"
  const AddUsersAutomatically: string := "A"
  const AddUsersWithPrompt: string := "N"

  /** `PrivacySettingToString`. */
  function PrivacySettingToString(s: PrivacySetting): (code: string)
    ensures |code| == 3
  {
    match s
    case AddUsers => "GTC"
    case AcceptInvitations => "BLP"
  }

  /** `StringToPrivacySetting`: any other code throws. */
  function StringToPrivacySetting(code: string): (r: Result<PrivacySetting, Failure>)
    ensures r.Err? <==> code != "GTC" && code != "BLP"
    ensures r.Err? ==> r.error == NotSupported
  {
    match code
    case "GTC" => Ok(AddUsers)
    case "BLP" => Ok(AcceptInvitations)
    case _ => Err(NotSupported)
  }

  lemma PrivacyCodes(s: PrivacySetting, code: string)
    ensures StringToPrivacySetting(PrivacySettingToString(s)) == Ok(s)
    ensures StringToPrivacySetting(code) == Ok(s) ==> PrivacySettingToString(s) == code
  {
  }

  /** `GetPrivacySettingInner`: an absent setting reads as empty. */
  function GetPrivacy(c: Client, s: PrivacySetting): (v: string)
    ensures s !in c.privacy ==> v == ""
    ensures s in c.privacy ==> v == c.privacy[s]
  {
    if s in c.privacy then c.privacy[s] else ""
  }

  /** `SetPrivacySettingInner`: the empty value deletes the setting. */
  function SetPrivacy(c: Client, s: PrivacySetting, v: string): (r: Client)
    ensures GetPrivacy(r, s) == v
    ensures forall t :: t != s ==> GetPrivacy(r, t) == GetPrivacy(c, t)
    ensures s in r.privacy <==> v != ""
    ensures r == c.(privacy := r.privacy)
  {
    if v == "" then c.(privacy := c.privacy - {s})
    else c.(privacy := c.privacy[s := v])
  }

  /** `GetPrivacySetting`: after `Close` the dictionary is null. */
  function GetPrivacySetting(c: Client, s: PrivacySetting): (r: Result<string, Failure>)
    ensures c.closed <==> r.Err?
    ensures r.Err? ==> r.error == NullReference
    ensures r.Ok? ==> r.value == GetPrivacy(c, s)
  {
    if c.closed then Err(NullReference) else Ok(GetPrivacy(c, s))
  }

  // --------------------------------------------------------------- groups

  /** `client.Groups.Where(g => name == g.Name).Count()`. */
  function CountNamed(c: Client, ids: seq<GroupId>, name: string): (n: nat)
    requires IdsBelow(ids, |c.groupTable|)
    ensures n <= |ids|
    ensures n == 0 <==> forall i :: 0 <= i < |ids| ==> c.groupTable[ids[i]].name != name
  {
    if |ids| == 0 then 0
    else
      var rest := CountNamed(c, ids[1..], name);
      assert forall i :: 1 <= i < |ids| ==> ids[i] == ids[1..][i - 1];
      (if c.groupTable[ids[0]].name == name then 1 else 0) + rest
  }

  /** `Groups.Where(gx => gx.Guid == guid)`, as the ids in order. */
  function WithGuid(c: Client, ids: seq<GroupId>, guid: string): (r: seq<GroupId>)
    requires IdsBelow(ids, |c.groupTable|)
    ensures forall g :: g in r <==> g in ids && c.groupTable[g].guid == guid
    ensures IdsBelow(r, |c.groupTable|)
  {
    if |ids| == 0 then []
    else
      var rest := WithGuid(c, ids[1..], guid);
      assert forall g :: g in ids <==> g == ids[0] || g in ids[1..] by {
        assert ids == [ids[0]] + ids[1..];
      }
      if c.groupTable[ids[0]].guid == guid then [ids[0]] + rest else rest
  }

  /** Whether any group in use holds the user (`RemoveUserAsync` on the
      forward list). */
  predicate InSomeGroup(c: Client, u: UserId)
    requires IdsBelow(c.groups, |c.groupTable|)
  {
    exists i :: 0 <= i < |c.groups| && u in c.groupTable[c.groups[i]].members
  }

  // ---------------------------------------------------------- transitions

  /** What a public operation leaves behind when it completes: the client
      afterwards and the events it raised, in order. */
  datatype Effect = Effect(client: Client, events: seq<Raised>)

  /** One call of a public operation: the command it wrote, if it got that
      far, and its completion or the exception it threw. */
  datatype Step = Step(sent: Option<C.Body>, result: Result<Effect, Failure>)

  /** A call that throws before anything is written. */
  function Reject(f: Failure): (r: Step)
    ensures r.sent.None? && r.result.Err? && r.result.error == f
  {
    Step(None, Err(f))
  }

  /** The checks every roster operation makes once it holds the lock. */
  function Ready(c: Client): (r: Outcome<Failure>)
    ensures r.Pass? <==> !c.closed && c.loggedIn
    ensures c.closed ==> r == Fail(ObjectDisposed)
    ensures !c.closed && !c.loggedIn ==> r == Fail(NotLoggedIn)
  {
    if c.closed then Fail(ObjectDisposed)
    else if !c.loggedIn then Fail(NotLoggedIn)
    else Pass
  }
}

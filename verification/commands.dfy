/** The MSNP command classes of MSNP.cs: one constructor per class, the
    header parse of each `ReadAsync` and the line (and payload) each
    `WriteAsync` produces. */
module Commands {

  import opened Wrappers
  import opened Failures
  import opened Helpers
  import opened Text
  import opened LineIO

  /** The command classes, as the dispatch tables and the response tracker
      name them. */
  datatype CommandType =
    | EnableIMCommand | VersionCommand | ClientVersionCommand | AuthenticateCommand
    | TransferCommand | SynchronizeCommand | LocalPropertyCommand | UserPropertyCommand
    | ChangeStatusCommand | ChangeUserPropertyCommand | AcknowledgementCommand
    | NegativeAcknowledgementCommand | SendMessageCommand | MessageCommand
    | BroadcastCommand | NotificationCommand | UserCommand | GroupCommand
    | PrivacySettingCommand | SbsCommand | OutCommand | RingCommand | ChallengeCommand
    | AcceptChallengeCommand | UserOnlineCommand | InitialUserOnlineCommand
    | UserOfflineCommand | PingCommand | SendBroadcastCommand | UserRosterCommand
    | UserJoinedCommand | UserPartedCommand | AnswerCommand | AuthenticateIMCommand
    | CallUserCommand | AddGroupCommand | RemoveGroupCommand | RenameGroupCommand
    | AddContactCommand | RemoveContactCommand | ServerErrorCommand

  /** The properties of each class. A string property the class never sets
      is "" (it formats like null); one whose null-ness matters is an
      `Option`. */
  datatype Body =
    | EnableIM(enabled: bool)
    | Version(versions: seq<string>)
    | ClientVersion(localeId: string, osType: string, osVersion: string, architecture: string,
                    libraryName: string, clientVersion: string, clientName: string, loginName: string)
    | Authenticate(authType: string, status: string, argument: string)
    | Transfer(serverType: string, host: string, authType: string, host2OrSessionId: string)
    | Synchronize(timeStamp1: string, timeStamp2: string, userCount: int, groupCount: int)
    | LocalProperty(key: string, value: string)
    | UserProperty(key: string, value: string)
    | ChangeStatus(status: string, capabilities: int, displayPicture: Option<string>)
    | ChangeUserProperty(guid: string, key: string, value: string)
    | Acknowledgement
    | NegativeAcknowledgement
    | SendMessage(deliveryMethod: string, payload: seq<byte>)
    | Message(sender: string, senderNickname: string, payload: seq<byte>)
    | Broadcast(loginName: string, message: string)
    | Notification(message: string)
    | User(loginName: string, userNickname: Option<string>, userGuid: Option<string>,
           lists: seq<string>, groups: seq<string>)
    | Group(name: string, guid: string)
    | PrivacySetting(key: string, value: string)
    | Sbs(arg1: string, arg2: string)
    | Out(outCode: string)
    | Ring(sessionId: string, endpoint: string, authType: string, authString: string,
           caller: string, callerNickname: string)
    | Challenge(challenge: string)
    | AcceptChallenge(clientId: string, data: string)
    | UserOnline(status: string, loginName: string, nickname: string, capabilities: int,
                 displayPicture: Option<string>)
    | InitialUserOnline(status: string, loginName: string, nickname: string, capabilities: int,
                        displayPicture: Option<string>)
    | UserOffline(loginName: string)
    | Ping(untilNext: int)
    | SendBroadcast(message: string, otherArg: string)
    | UserRoster(currentIndex: int, totalCount: int, loginName: string, nickname: string)
    | UserJoined(loginName: string, nickname: string)
    | UserParted(loginName: string, dueToInactivity: bool)
    | Answer(loginName: string, authToken: string, sessionId: string, otherArg: string)
    | AuthenticateIM(loginName: string, nickname: string, sessionId: string, otherArg: string)
    | CallUser(loginName: string, response: string, sessionId: string)
    | AddGroup(name: string, guid: string)
    | RemoveGroup(guid: string)
    | RenameGroup(guid: string, name: string)
    | AddContact(list: string, contactLogin: Option<string>, contactGuid: Option<string>,
                 contactNickname: Option<string>, groupGuid: Option<string>)
    | RemoveContact(list: string, loginNameOrGuid: string, groupGuid: Option<string>)
    | ServerError(errorCode: int)

  /** A command: the transaction id of the base class and the class's own
      properties. */
  datatype Command = Command(trId: Option<int>, body: Body)

  function TypeOf(b: Body): CommandType {
    match b
    case EnableIM(_) => EnableIMCommand
    case Version(_) => VersionCommand
    case ClientVersion(_, _, _, _, _, _, _, _) => ClientVersionCommand
    case Authenticate(_, _, _) => AuthenticateCommand
    case Transfer(_, _, _, _) => TransferCommand
    case Synchronize(_, _, _, _) => SynchronizeCommand
    case LocalProperty(_, _) => LocalPropertyCommand
    case UserProperty(_, _) => UserPropertyCommand
    case ChangeStatus(_, _, _) => ChangeStatusCommand
    case ChangeUserProperty(_, _, _) => ChangeUserPropertyCommand
    case Acknowledgement => AcknowledgementCommand
    case NegativeAcknowledgement => NegativeAcknowledgementCommand
    case SendMessage(_, _) => SendMessageCommand
    case Message(_, _, _) => MessageCommand
    case Broadcast(_, _) => BroadcastCommand
    case Notification(_) => NotificationCommand
    case User(_, _, _, _, _) => UserCommand
    case Group(_, _) => GroupCommand
    case PrivacySetting(_, _) => PrivacySettingCommand
    case Sbs(_, _) => SbsCommand
    case Out(_) => OutCommand
    case Ring(_, _, _, _, _, _) => RingCommand
    case Challenge(_) => ChallengeCommand
    case AcceptChallenge(_, _) => AcceptChallengeCommand
    case UserOnline(_, _, _, _, _) => UserOnlineCommand
    case InitialUserOnline(_, _, _, _, _) => InitialUserOnlineCommand
    case UserOffline(_) => UserOfflineCommand
    case Ping(_) => PingCommand
    case SendBroadcast(_, _) => SendBroadcastCommand
    case UserRoster(_, _, _, _) => UserRosterCommand
    case UserJoined(_, _) => UserJoinedCommand
    case UserParted(_, _) => UserPartedCommand
    case Answer(_, _, _, _) => AnswerCommand
    case AuthenticateIM(_, _, _, _) => AuthenticateIMCommand
    case CallUser(_, _, _) => CallUserCommand
    case AddGroup(_, _) => AddGroupCommand
    case RemoveGroup(_) => RemoveGroupCommand
    case RenameGroup(_, _) => RenameGroupCommand
    case AddContact(_, _, _, _, _) => AddContactCommand
    case RemoveContact(_, _, _) => RemoveContactCommand
    case ServerError(_) => ServerErrorCommand
  }

  // ------------------------------------------------------------- reading

  /** `header.Split(' ')`. */
  function Args(header: string): (args: seq<string>)
    ensures |args| >= 1
  {
    SplitChar(header, ' ')
  }

  /** `args[i]`: an index past the end throws. */
  function At(args: seq<string>, i: nat): (r: Result<string, Failure>)
    ensures r.Ok? <==> i < |args|
    ensures r.Ok? ==> r.value == args[i]
    ensures r.Err? ==> r.error == IndexOutOfRange
  {
    if i < |args| then Ok(args[i]) else Err(IndexOutOfRange)
  }

  /** `Int32.Parse(args[i])`. */
  function IntAt(args: seq<string>, i: nat): (r: Result<int, Failure>)
    ensures r.Ok? ==> i < |args| && ParseInt32(args[i]) == Ok(r.value)
    ensures i < |args| && ParseInt32(args[i]).Ok? ==> r.Ok?
  {
    var s :- At(args, i);
    ParseInt32(s)
  }

  /** `list[i]` on a `List<string>`: an index past the end throws the
      list's `ArgumentOutOfRangeException` rather than the array's
      exception. */
  function ListAt(items: seq<string>, i: nat): (r: Result<string, Failure>)
    ensures r.Ok? <==> i < |items|
    ensures r.Ok? ==> r.value == items[i]
    ensures r.Err? ==> r.error == ArgumentOutOfRange
  {
    if i < |items| then Ok(items[i]) else Err(ArgumentOutOfRange)
  }

  /** `Int32.Parse(list[i])` on a `List<string>`. */
  function IntListAt(items: seq<string>, i: nat): (r: Result<int, Failure>)
    ensures i >= |items| ==> r == Err(ArgumentOutOfRange)
    ensures i < |items| ==> r == ParseInt32(items[i])
  {
    var s :- ListAt(items, i);
    ParseInt32(s)
  }

  /** `UInt32.Parse(args[i])`. */
  function UIntAt(args: seq<string>, i: nat): (r: Result<int, Failure>)
    ensures r.Ok? ==> i < |args| && ParseUInt32(args[i]) == Ok(r.value)
    ensures i < |args| && ParseUInt32(args[i]).Ok? ==> r.Ok?
  {
    var s :- At(args, i);
    ParseUInt32(s)
  }

  /** The positional and `key=value` tokens of the LST and ADC headers;
      keys in order of appearance. */
  datatype Fields = Fields(keyValues: seq<(string, string)>, positional: seq<string>)

  function Lookup(kv: seq<(string, string)>, key: string): (r: Option<string>)
    ensures r.Some? ==> (key, r.value) in kv
    ensures r.None? ==> forall i :: 0 <= i < |kv| ==> kv[i].0 != key
    decreases |kv|
  {
    if |kv| == 0 then None
    else if kv[0].0 == key then Some(kv[0].1)
    else Lookup(kv[1..], key)
  }

  /** The '=' cut of a token. `UserCommand` splits at the first '=' only
      (`Split(new char[] {'='}, 2)`); `AddContactCommand` splits at every
      '=' (`Split('=')`). */
  function EqualsParts(token: string, firstOnly: bool): (parts: seq<string>)
    ensures |parts| >= 1
  {
    if firstOnly then
      var i := IndexOf(token, "=");
      if i < 0 then [token] else [token[..i], token[i + 1..]]
    else SplitChar(token, '=')
  }

  /** One step of the token loop: a token that cuts into exactly two parts
      goes to the dictionary (`Dictionary.Add`, which rejects a repeated
      key), every other token to the positional list. */
  function AddToken(f: Fields, token: string, firstOnly: bool): (r: Result<Fields, Failure>)
    ensures r.Err? ==> r.error == Argument
  {
    var parts := EqualsParts(token, firstOnly);
    if |parts| == 2 then
      if Lookup(f.keyValues, parts[0]).Some? then Err(Argument)
      else Ok(f.(keyValues := f.keyValues + [(parts[0], parts[1])]))
    else Ok(f.(positional := f.positional + [token]))
  }

  /** The token loop over a whole header, left to right. */
  function Tokenize(tokens: seq<string>, firstOnly: bool): (r: Result<Fields, Failure>)
    ensures r.Err? ==> r.error == Argument
    decreases |tokens|
  {
    if |tokens| == 0 then Ok(Fields([], []))
    else
      var f :- Tokenize(tokens[..|tokens| - 1], firstOnly);
      AddToken(f, tokens[|tokens| - 1], firstOnly)
  }

  /** The five lists and their bits in `UserCommand`'s dictionary, in its
      enumeration order. */
  const ListBits: seq<(int, string)> := [(1, "FL"), (2, "AL"), (4, "BL"), (8, "RL"), (16, "PL")]

  /** `(flags & bit) == bit` for a 32-bit two's-complement `flags` and a
      power-of-two `bit`. */
  predicate HasBit(flags: int, bit: int)
    requires bit > 0
  {
    var unsigned := if flags < 0 then flags + 0x1_0000_0000 else flags;
    (unsigned / bit) % 2 == 1
  }

  /** `lists.Where(x => (listFlags & x.Key) == x.Key).Select(x => x.Value)`. */
  function ListsOf(flags: int): (lists: seq<string>)
  {
    FilterBits(flags, ListBits)
  }

  function FilterBits(flags: int, bits: seq<(int, string)>): (names: seq<string>)
    requires forall k :: 0 <= k < |bits| ==> bits[k].0 > 0
    ensures |names| <= |bits|
    decreases |bits|
  {
    if |bits| == 0 then []
    else (if HasBit(flags, bits[0].0) then [bits[0].1] else []) + FilterBits(flags, bits[1..])
  }

  /** `UserCommand.ReadAsync` (LST). */
  function ReadUser(args: seq<string>): (r: Result<Command, Failure>)
    requires |args| >= 1
    ensures r.Ok? ==> r.value.trId.None? && r.value.body.User?
    ensures var f := Tokenize(args[1..], true);
      f.Ok? && Lookup(f.value.keyValues, "N").Some? && |f.value.positional| == 0 ==> r == Err(ArgumentOutOfRange)
  {
    var fields :- Tokenize(args[1..], true);
    var login :- match Lookup(fields.keyValues, "N")
                 case Some(n) => Ok(n)
                 case None => Err(KeyNotFound);
    var nickname := match Lookup(fields.keyValues, "F")
                    case Some(f) => Some(Unescape(f))
                    case None => None;
    var flags :- IntListAt(fields.positional, 0);
    var groups := if |fields.positional| > 2 then SplitChar(fields.positional[2], ',') else [];
    Ok(Command(None, User(login, nickname, Lookup(fields.keyValues, "C"), ListsOf(flags), groups)))
  }

  /** `AddContactCommand.ReadAsync` (ADC). */
  function ReadAddContact(args: seq<string>): (r: Result<Command, Failure>)
    ensures r.Ok? ==> r.value.trId.Some? && r.value.body.AddContact?
    ensures var f := Tokenize(args, false);
      f.Ok? && |f.value.positional| < 2 ==> r == Err(ArgumentOutOfRange)
    ensures var f := Tokenize(args, false);
      f.Ok? && |f.value.positional| == 2 && ParseInt32(f.value.positional[1]).Ok? ==> r == Err(ArgumentOutOfRange)
  {
    var fields :- Tokenize(args, false);
    var trId :- IntListAt(fields.positional, 1);
    var list :- ListAt(fields.positional, 2);
    var nickname := match Lookup(fields.keyValues, "F")
                    case Some(f) => Some(Unescape(f))
                    case None => None;
    var groupGuid := if |fields.positional| > 3 then Some(fields.positional[3]) else None;
    Ok(Command(Some(trId), AddContact(list, Lookup(fields.keyValues, "N"), Lookup(fields.keyValues, "C"), nickname, groupGuid)))
  }

  /** The commands followed by a payload, and the header token holding its
      length. */
  function PayloadLengthIndex(t: CommandType): (i: Option<nat>)
  {
    match t
    case MessageCommand => Some(3)
    case BroadcastCommand => Some(2)
    case NotificationCommand => Some(1)
    case _ => None
  }

  /** A header read so far: complete, or waiting for `length` payload bytes. */
  datatype Pending = Complete(command: Command) | NeedsPayload(length: nat, partial: Command)

  /** The payload once read: the raw bytes of MSG, the UTF-8 text of UBX and
      NOT. */
  function WithPayload(c: Command, payload: seq<byte>): (r: Command)
    ensures r.trId == c.trId && TypeOf(r.body) == TypeOf(c.body)
  {
    match c.body
    case Message(s, n, _) => Command(c.trId, Message(s, n, payload))
    case Broadcast(l, _) => Command(c.trId, Broadcast(l, BytesToText(payload)))
    case Notification(_) => Command(c.trId, Notification(BytesToText(payload)))
    case _ => c
  }

  /** `new byte[length]` throws for a negative length. */
  function PayloadOf(length: int, partial: Command): (r: Result<Pending, Failure>)
    ensures r.Ok? <==> length >= 0
    ensures r.Ok? ==> r.value == NeedsPayload(length, partial)
  {
    if length < 0 then Err(Overflow) else Ok(NeedsPayload(length, partial))
  }

  function ReadEnableIM(args: seq<string>): (r: Result<Command, Failure>)
    requires |args| >= 1
  {
    var tr :- IntAt(args, 1);
    var on :- At(args, 3);
    Ok(Command(Some(tr), EnableIM(on == "ON")))
  }

  function ReadVersion(args: seq<string>): (r: Result<Command, Failure>)
    requires |args| >= 1
  {
    var tr :- IntAt(args, 1);
    Ok(Command(Some(tr), Version(args[2..])))
  }

  function ReadClientVersion(args: seq<string>): (r: Result<Command, Failure>)
    requires |args| >= 1
  {
    var tr :- IntAt(args, 1);
    Ok(Command(Some(tr), ClientVersion("", "", "", "", "", "", "", "")))
  }

  function ReadAuthenticate(args: seq<string>): (r: Result<Command, Failure>)
    requires |args| >= 1
  {
    var tr :- IntAt(args, 1);
    var a :- At(args, 2);
    var s :- At(args, 3);
    var g :- At(args, 4);
    Ok(Command(Some(tr), Authenticate(a, s, g)))
  }

  function ReadTransfer(args: seq<string>): (r: Result<Command, Failure>)
    requires |args| >= 1
  {
    var tr :- IntAt(args, 1);
    var st :- At(args, 2);
    var h :- At(args, 3);
    var a :- At(args, 4);
    var h2 :- At(args, 5);
    Ok(Command(Some(tr), Transfer(st, h, a, h2)))
  }

  function ReadSynchronize(args: seq<string>): (r: Result<Command, Failure>)
    requires |args| >= 1
  {
    var tr :- IntAt(args, 1);
    var ts1 :- At(args, 2);
    var ts2 :- At(args, 3);
    if |args| > 4 then
      var users :- IntAt(args, 4);
      var groups :- IntAt(args, 5);
      Ok(Command(Some(tr), Synchronize(ts1, ts2, users, groups)))
    else
      Ok(Command(Some(tr), Synchronize(ts1, ts2, 0, 0)))
  }

  function ReadLocalProperty(args: seq<string>): (r: Result<Command, Failure>)
    requires |args| >= 1
    ensures r.Ok? ==> (r.value.trId.Some? <==> |args| > 3)
  {
    if |args| > 3 then
      var tr :- IntAt(args, 1);
      Ok(Command(Some(tr), LocalProperty(args[2], Unescape(args[3]))))
    else
      var k :- At(args, 1);
      var v :- At(args, 2);
      Ok(Command(None, LocalProperty(k, Unescape(v))))
  }

  function ReadUserProperty(args: seq<string>): (r: Result<Command, Failure>)
    requires |args| >= 1
  {
    var k :- At(args, 1);
    var v :- At(args, 2);
    Ok(Command(None, UserProperty(k, Unescape(v))))
  }

  function ReadChangeStatus(args: seq<string>): (r: Result<Command, Failure>)
    requires |args| >= 1
  {
    var tr :- IntAt(args, 1);
    var s :- At(args, 2);
    var caps :- UIntAt(args, 3);
    Ok(Command(Some(tr), ChangeStatus(s, caps, if |args| > 4 then Some(args[4]) else None)))
  }

  function ReadChangeUserProperty(args: seq<string>): (r: Result<Command, Failure>)
    requires |args| >= 1
  {
    var tr :- IntAt(args, 1);
    var g :- At(args, 2);
    var k :- At(args, 3);
    var v :- At(args, 4);
    Ok(Command(Some(tr), ChangeUserProperty(g, k, Unescape(v))))
  }

  function ReadAcknowledgement(args: seq<string>): (r: Result<Command, Failure>)
    requires |args| >= 1
  {
    var tr :- IntAt(args, 1);
    Ok(Command(Some(tr), Acknowledgement))
  }

  function ReadNegativeAcknowledgement(args: seq<string>): (r: Result<Command, Failure>)
    requires |args| >= 1
  {
    var tr :- IntAt(args, 1);
    Ok(Command(Some(tr), NegativeAcknowledgement))
  }

  function ReadMessage(args: seq<string>): (r: Result<Pending, Failure>)
    requires |args| >= 1
    ensures r.Ok? ==> r.value.NeedsPayload? && r.value.partial.body.Message?
  {
    var s :- At(args, 1);
    var n :- At(args, 2);
    var len :- IntAt(args, 3);
    PayloadOf(len, Command(None, Message(s, n, [])))
  }

  function ReadBroadcast(args: seq<string>): (r: Result<Pending, Failure>)
    requires |args| >= 1
    ensures r.Ok? ==> r.value.NeedsPayload? && r.value.partial.body.Broadcast?
  {
    var l :- At(args, 1);
    var len :- IntAt(args, 2);
    PayloadOf(len, Command(None, Broadcast(l, "")))
  }

  function ReadNotification(args: seq<string>): (r: Result<Pending, Failure>)
    requires |args| >= 1
    ensures r.Ok? ==> r.value.NeedsPayload? && r.value.partial.body.Notification?
  {
    var len :- IntAt(args, 1);
    PayloadOf(len, Command(None, Notification("")))
  }

  function ReadGroup(args: seq<string>): (r: Result<Command, Failure>)
    requires |args| >= 1
  {
    var n :- At(args, 1);
    var g :- At(args, 2);
    Ok(Command(None, Group(Unescape(n), g)))
  }

  function ReadPrivacySetting(args: seq<string>): (r: Result<Command, Failure>)
    requires |args| >= 1
    ensures r.Ok? ==> (r.value.trId.Some? <==> |args| != 2)
  {
    if |args| == 2 then
      Ok(Command(None, PrivacySetting(args[0], args[1])))
    else
      var tr :- IntAt(args, 1);
      Ok(Command(Some(tr), PrivacySetting(args[0], args[2])))
  }

  function ReadSbs(args: seq<string>): (r: Result<Command, Failure>)
    requires |args| >= 1
  {
    var a :- At(args, 1);
    var b :- At(args, 2);
    Ok(Command(None, Sbs(a, b)))
  }

  function ReadOut(args: seq<string>): (r: Result<Command, Failure>)
    requires |args| >= 1
  {
    var o :- At(args, 1);
    Ok(Command(None, Out(o)))
  }

  function ReadRing(args: seq<string>): (r: Result<Command, Failure>)
    requires |args| >= 1
  {
    var sid :- At(args, 1);
    var ep :- At(args, 2);
    var at :- At(args, 3);
    var auth :- At(args, 4);
    var caller :- At(args, 5);
    var nick :- At(args, 6);
    Ok(Command(None, Ring(sid, ep, at, auth, caller, Unescape(nick))))
  }

  function ReadChallenge(args: seq<string>): (r: Result<Command, Failure>)
    requires |args| >= 1
  {
    var ch :- At(args, 2);
    Ok(Command(None, Challenge(ch)))
  }

  function ReadAcceptChallenge(args: seq<string>): (r: Result<Command, Failure>)
    requires |args| >= 1
  {
    var tr :- IntAt(args, 1);
    Ok(Command(Some(tr), AcceptChallenge("", "")))
  }

  function ReadUserOnline(args: seq<string>): (r: Result<Command, Failure>)
    requires |args| >= 1
  {
    var s :- At(args, 1);
    var l :- At(args, 2);
    var n :- At(args, 3);
    var caps :- UIntAt(args, 4);
    Ok(Command(None, UserOnline(s, l, Unescape(n), caps, if |args| > 5 then Some(args[5]) else None)))
  }

  function ReadInitialUserOnline(args: seq<string>): (r: Result<Command, Failure>)
    requires |args| >= 1
  {
    var s :- At(args, 2);
    var l :- At(args, 3);
    var n :- At(args, 4);
    var caps :- UIntAt(args, 5);
    Ok(Command(None, InitialUserOnline(s, l, Unescape(n), caps, if |args| > 6 then Some(args[6]) else None)))
  }

  function ReadUserOffline(args: seq<string>): (r: Result<Command, Failure>)
    requires |args| >= 1
  {
    var l :- At(args, 1);
    Ok(Command(None, UserOffline(l)))
  }

  function ReadPing(args: seq<string>): (r: Result<Command, Failure>)
    requires |args| >= 1
  {
    var n :- IntAt(args, 1);
    Ok(Command(None, Ping(n)))
  }

  function ReadSendBroadcast(args: seq<string>): (r: Result<Command, Failure>)
    requires |args| >= 1
  {
    var tr :- IntAt(args, 1);
    var o :- At(args, 2);
    Ok(Command(Some(tr), SendBroadcast("", o)))
  }

  function ReadUserRoster(args: seq<string>): (r: Result<Command, Failure>)
    requires |args| >= 1
  {
    var tr :- IntAt(args, 1);
    var idx :- IntAt(args, 2);
    var total :- IntAt(args, 3);
    var l :- At(args, 4);
    var n :- At(args, 5);
    Ok(Command(Some(tr), UserRoster(idx, total, l, Unescape(n))))
  }

  function ReadUserJoined(args: seq<string>): (r: Result<Command, Failure>)
    requires |args| >= 1
  {
    var l :- At(args, 1);
    var n :- At(args, 2);
    Ok(Command(None, UserJoined(l, Unescape(n))))
  }

  function ReadUserParted(args: seq<string>): (r: Result<Command, Failure>)
    requires |args| >= 1
  {
    var l :- At(args, 1);
    Ok(Command(None, UserParted(l, |args| > 2 && args[2] == "1")))
  }

  function ReadAnswer(args: seq<string>): (r: Result<Command, Failure>)
    requires |args| >= 1
  {
    var tr :- IntAt(args, 1);
    var o :- At(args, 2);
    Ok(Command(Some(tr), Answer("", "", "", o)))
  }

  function ReadAuthenticateIM(args: seq<string>): (r: Result<Command, Failure>)
    requires |args| >= 1
  {
    var tr :- IntAt(args, 1);
    var o :- At(args, 2);
    var l :- At(args, 3);
    var n :- At(args, 4);
    Ok(Command(Some(tr), AuthenticateIM(l, Unescape(n), "", o)))
  }

  function ReadCallUser(args: seq<string>): (r: Result<Command, Failure>)
    requires |args| >= 1
  {
    var tr :- IntAt(args, 1);
    var resp :- At(args, 2);
    var sid :- At(args, 3);
    Ok(Command(Some(tr), CallUser("", resp, sid)))
  }

  function ReadAddGroup(args: seq<string>): (r: Result<Command, Failure>)
    requires |args| >= 1
  {
    var tr :- IntAt(args, 1);
    var n :- At(args, 2);
    var g :- At(args, 3);
    Ok(Command(Some(tr), AddGroup(Unescape(n), g)))
  }

  function ReadRemoveGroup(args: seq<string>): (r: Result<Command, Failure>)
    requires |args| >= 1
  {
    var tr :- IntAt(args, 1);
    var g :- At(args, 2);
    Ok(Command(Some(tr), RemoveGroup(g)))
  }

  function ReadRenameGroup(args: seq<string>): (r: Result<Command, Failure>)
    requires |args| >= 1
  {
    var tr :- IntAt(args, 1);
    Ok(Command(Some(tr), RenameGroup("", "")))
  }

  function ReadRemoveContact(args: seq<string>): (r: Result<Command, Failure>)
    requires |args| >= 1
  {
    var tr :- IntAt(args, 1);
    var l :- At(args, 2);
    var x :- At(args, 3);
    Ok(Command(Some(tr), RemoveContact(l, x, if |args| > 4 then Some(args[4]) else None)))
  }

  function ReadServerError(args: seq<string>): (r: Result<Command, Failure>)
    requires |args| >= 1
  {
    var code :- IntAt(args, 0);
    var tr :- IntAt(args, 1);
    Ok(Command(Some(tr), ServerError(code)))
  }

  /** A command read from its header line alone. */
  function Finished(r: Result<Command, Failure>): (p: Result<Pending, Failure>)
    ensures p.Ok? <==> r.Ok?
    ensures p.Ok? ==> p.value == Complete(r.value)
    ensures p.Err? ==> p.error == r.error
  {
    match r
    case Ok(c) => Ok(Complete(c))
    case Err(e) => Err(e)
  }

  /** Every class's `ReadAsync` over the header line. A class without its own
      `ReadAsync` throws `NotImplementedException`. */
  function Read(t: CommandType, header: string): (r: Result<Pending, Failure>)
    ensures r.Ok? && r.value.NeedsPayload? ==> PayloadLengthIndex(t).Some?
  {
    var args := Args(header);
    match t
    case EnableIMCommand => Finished(ReadEnableIM(args))
    case VersionCommand => Finished(ReadVersion(args))
    case ClientVersionCommand => Finished(ReadClientVersion(args))
    case AuthenticateCommand => Finished(ReadAuthenticate(args))
    case TransferCommand => Finished(ReadTransfer(args))
    case SynchronizeCommand => Finished(ReadSynchronize(args))
    case LocalPropertyCommand => Finished(ReadLocalProperty(args))
    case UserPropertyCommand => Finished(ReadUserProperty(args))
    case ChangeStatusCommand => Finished(ReadChangeStatus(args))
    case ChangeUserPropertyCommand => Finished(ReadChangeUserProperty(args))
    case AcknowledgementCommand => Finished(ReadAcknowledgement(args))
    case NegativeAcknowledgementCommand => Finished(ReadNegativeAcknowledgement(args))
    case SendMessageCommand => Err(NotImplemented)
    case MessageCommand => ReadMessage(args)
    case BroadcastCommand => ReadBroadcast(args)
    case NotificationCommand => ReadNotification(args)
    case UserCommand => Finished(ReadUser(args))
    case GroupCommand => Finished(ReadGroup(args))
    case PrivacySettingCommand => Finished(ReadPrivacySetting(args))
    case SbsCommand => Finished(ReadSbs(args))
    case OutCommand => Finished(ReadOut(args))
    case RingCommand => Finished(ReadRing(args))
    case ChallengeCommand => Finished(ReadChallenge(args))
    case AcceptChallengeCommand => Finished(ReadAcceptChallenge(args))
    case UserOnlineCommand => Finished(ReadUserOnline(args))
    case InitialUserOnlineCommand => Finished(ReadInitialUserOnline(args))
    case UserOfflineCommand => Finished(ReadUserOffline(args))
    case PingCommand => Finished(ReadPing(args))
    case SendBroadcastCommand => Finished(ReadSendBroadcast(args))
    case UserRosterCommand => Finished(ReadUserRoster(args))
    case UserJoinedCommand => Finished(ReadUserJoined(args))
    case UserPartedCommand => Finished(ReadUserParted(args))
    case AnswerCommand => Finished(ReadAnswer(args))
    case AuthenticateIMCommand => Finished(ReadAuthenticateIM(args))
    case CallUserCommand => Finished(ReadCallUser(args))
    case AddGroupCommand => Finished(ReadAddGroup(args))
    case RemoveGroupCommand => Finished(ReadRemoveGroup(args))
    case RenameGroupCommand => Finished(ReadRenameGroup(args))
    case AddContactCommand => Finished(ReadAddContact(args))
    case RemoveContactCommand => Finished(ReadRemoveContact(args))
    case ServerErrorCommand => Finished(ReadServerError(args))
  }

  // ------------------------------------------------------------- writing

  /** Words separated by single spaces (a format string such as
      "SYN {0} {1} {2}"). */
  function Words(ws: seq<string>): (line: string)
  {
    if |ws| == 0 then "" else JoinOn(ws, " ")
  }

  /** `{0}` applied to a nullable transaction id: null formats as "". */
  function TrIdText(trId: Option<int>): (s: string)
  {
    match trId
    case Some(t) => IntToString(t)
    case None => ""
  }

  /** An outbound command: the header line and the bytes written after it. */
  datatype Wire = Wire(line: string, payload: seq<byte>)

  /** The bytes put on the stream. */
  function WireBytes(w: Wire): (bs: seq<byte>)
    ensures bs == WriteLine(w.line) + w.payload
  {
    WriteLine(w.line) + w.payload
  }

  function Keyed(key: string, value: Option<string>): (ts: seq<string>)
    ensures |ts| <= 1
  {
    match value
    case Some(v) => [key + "=" + v]
    case None => []
  }

  function Optional(value: Option<string>): (ts: seq<string>)
    ensures |ts| <= 1
  {
    match value
    case Some(v) => [v]
    case None => []
  }

  /** The tokens of an ADC request: positional list, then the optional
      `N=`, `C=` and `F=` pairs, then the optional group guid. */
  function AddContactTokens(tr: string, list: string, login: Option<string>, guid: Option<string>,
                            nickToken: Option<string>, groupGuid: Option<string>): (ts: seq<string>)
    ensures 3 <= |ts| <= 7 && ts[..3] == ["ADC", tr, list]
  {
    ["ADC", tr, list] + Keyed("N", login) + Keyed("C", guid) + Keyed("F", nickToken) + Optional(groupGuid)
  }

  // One writer per class; `Write` dispatches on the body.

  function WriteEnableIM(tr: string, on: bool): Wire { Wire(Words(["IMS", tr, if on then "ON" else "OFF"]), []) }
  function WriteVersion(tr: string, vs: seq<string>): Wire { Wire(Words(["VER", tr, Words(vs)]), []) }
  function WriteClientVersion(tr: string, a: string, b: string, d: string, e: string,
                              f: string, g: string, h: string, i: string): Wire
  {
    Wire(Words(["CVR", tr, a, b, d, e, f, g, h, i]), [])
  }
  function WriteAuthenticate(tr: string, a: string, s: string, g: string): Wire { Wire(Words(["USR", tr, a, s, g]), []) }
  function WriteTransfer(tr: string, st: string): Wire { Wire(Words(["XFR", tr, st]), []) }
  function WriteSynchronize(tr: string, ts1: string, ts2: string): Wire { Wire(Words(["SYN", tr, ts1, ts2]), []) }
  function WriteLocalProperty(tr: string, k: string, v: string): Wire { Wire(Words(["PRP", tr, k, Escape(v)]), []) }
  function WriteChangeStatus(tr: string, s: string, caps: int, dp: Option<string>): Wire
  {
    Wire(Words(["CHG", tr, s, IntToString(caps), dp.GetOr("")]), [])
  }
  function WriteChangeUserProperty(tr: string, g: string, k: string, v: string): Wire
  {
    Wire(Words(["SBP", tr, g, k, Escape(v)]), [])
  }
  /** MSG is sent with `TrId ?? 0`. */
  function WriteSendMessage(trId: Option<int>, m: string, p: seq<byte>): Wire
  {
    Wire(Words(["MSG", IntToString(trId.GetOr(0)), m, IntToString(|p|)]), p)
  }
  function WritePrivacySetting(tr: string, k: string, v: string): Wire { Wire(Words([k, tr, v]), []) }
  function WriteAcceptChallenge(tr: string, id: string, data: string): Wire
  {
    var payload := Utf8Encode(data);
    Wire(Words(["QRY", tr, id, IntToString(|payload|)]), payload)
  }
  function WritePing(): Wire { Wire("PNG", []) }
  function WriteSendBroadcast(tr: string, m: string): Wire
  {
    var payload := Utf8Encode(m);
    Wire(Words(["UUX", tr, IntToString(|payload|)]), payload)
  }
  function WriteAnswer(tr: string, l: string, t: string, s: string): Wire { Wire(Words(["ANS", tr, l, t, s]), []) }
  function WriteAuthenticateIM(tr: string, l: string, s: string): Wire { Wire(Words(["USR", tr, l, s]), []) }
  function WriteCallUser(tr: string, l: string): Wire { Wire(Words(["CAL", tr, l]), []) }
  function WriteAddGroup(tr: string, n: string): Wire { Wire(Words(["ADG", tr, Escape(n)]), []) }
  function WriteRemoveGroup(tr: string, g: string): Wire { Wire(Words(["RMG", tr, g]), []) }
  function WriteRenameGroup(tr: string, g: string, n: string): Wire { Wire(Words(["REG", tr, g, Escape(n)]), []) }
  function WriteAddContact(tr: string, list: string, login: Option<string>, guid: Option<string>,
                           nick: Option<string>, gg: Option<string>): Wire
  {
    var nickToken := match nick case Some(n) => Some(Escape(n)) case None => None;
    Wire(Words(AddContactTokens(tr, list, login, guid, nickToken, gg)), [])
  }
  function WriteRemoveContact(tr: string, list: string, x: string, gg: Option<string>): Wire
  {
    Wire(Words(["REM", tr, list, x] + Optional(gg)), [])
  }

  /** Every class's `WriteAsync`. A class without one throws
      `NotImplementedException`. */
  function Write(c: Command): (r: Result<Wire, Failure>)
    ensures r.Err? ==> r.error == NotImplemented
  {
    var tr := TrIdText(c.trId);
    match c.body
    case EnableIM(on) => Ok(WriteEnableIM(tr, on))
    case Version(vs) => Ok(WriteVersion(tr, vs))
    case ClientVersion(a, b, d, e, f, g, h, i) => Ok(WriteClientVersion(tr, a, b, d, e, f, g, h, i))
    case Authenticate(a, s, g) => Ok(WriteAuthenticate(tr, a, s, g))
    case Transfer(st, _, _, _) => Ok(WriteTransfer(tr, st))
    case Synchronize(ts1, ts2, _, _) => Ok(WriteSynchronize(tr, ts1, ts2))
    case LocalProperty(k, v) => Ok(WriteLocalProperty(tr, k, v))
    case ChangeStatus(s, caps, dp) => Ok(WriteChangeStatus(tr, s, caps, dp))
    case ChangeUserProperty(g, k, v) => Ok(WriteChangeUserProperty(tr, g, k, v))
    case SendMessage(m, p) => Ok(WriteSendMessage(c.trId, m, p))
    case PrivacySetting(k, v) => Ok(WritePrivacySetting(tr, k, v))
    case AcceptChallenge(id, data) => Ok(WriteAcceptChallenge(tr, id, data))
    case Ping(_) => Ok(WritePing())
    case SendBroadcast(m, _) => Ok(WriteSendBroadcast(tr, m))
    case Answer(l, t, s, _) => Ok(WriteAnswer(tr, l, t, s))
    case AuthenticateIM(l, _, s, _) => Ok(WriteAuthenticateIM(tr, l, s))
    case CallUser(l, _, _) => Ok(WriteCallUser(tr, l))
    case AddGroup(n, _) => Ok(WriteAddGroup(tr, n))
    case RemoveGroup(g) => Ok(WriteRemoveGroup(tr, g))
    case RenameGroup(g, n) => Ok(WriteRenameGroup(tr, g, n))
    case AddContact(list, login, guid, nick, gg) => Ok(WriteAddContact(tr, list, login, guid, nick, gg))
    case RemoveContact(list, x, gg) => Ok(WriteRemoveContact(tr, list, x, gg))
    case _ => Err(NotImplemented)
  }
}

# Messenger-Library protocol core in Dafny

This project models the protocol engine of Messenger-Library, a C# client for
the MSN Messenger protocol (MSNP). The model keeps what the client computes
and drops the sockets, HTTP calls, locks and reactive streams around it.
What remains is sequential and deterministic. Each operation is a pure
function over immutable data. Server replies and socket results are
parameters of the operation, and emitted events are a returned sequence.

The modules follow the library's components:

- `Helpers`, `Text`, `Collections`, `Dict`, `Wrappers`, `Failures`: byte and
  string helpers (`ByteExt`, `StringExtensions`, `TakeUntil`), integer
  parsing and formatting with 32-bit bounds, UTF-8 byte counts, percent
  escaping, list and dictionary semantics, and the exceptions the library
  throws as `Failure` values.
- `LineIO`: the `LineReader` buffer with its CRLF scan and cursor, exact
  payload reads, and `LineWriter`'s line framing.
- `Commands`, `CommandLaws`, `Dispatch`: the header parser and formatter of
  every command class, the dispatch table from a line's first word to its
  class, and the per-class format-then-parse round trips.
- `Tracker`: `ResponseTracker`'s transaction ids and its choice of the
  reply that answers a request.
- `Messages`, `Formatting`: the MIME-like message envelope and the
  `X-MMS-IM-Format` header that `MessageFormatter` reads and writes.
- `Handshake`: the `CHL`/`QRY` challenge response computed from an MD5
  digest.
- `Enums`, `Users`, `Events`, `Roster`, `UserListOps`, `GroupOps`,
  `LocalUserOps`: users and their property maps, the five contact lists,
  groups, the local user's changes, the client's user cache, privacy
  settings and the event records each change raises.
- `Sync`: `ProcessSyncCommands`, which applies the server's contact rows
  to the roster, cleans up what the rows no longer name, and raises the
  events.
- `ClientOps`: `LoginAsync`'s redirect loop and sync, `LogoutInner`,
  `HandleOut`, `Close`, privacy changes and accepting invitations.
- `Sessions`: conversations on a switchboard server: participants, joins
  and parts, delivery options and their outcomes, invitations and closing.
- `Connections`: `SocketEndPoint` parsing and formatting, the send and
  receive loops over a socket given as a parameter, the once-only `Error`
  event and the idempotent `Close`.

## Model

| member | source | states |
|---|---|---|
| ClientOps.SetPrivacySetting | MessengerLibrary/MessengerClient.cs:327-368 | a value outside the setting's two allowed codes is an `ArgumentException` before any check; a closed or logged-out client is refused; a setting no sync row supplied throws `KeyNotFoundException`; the current value is refused; only otherwise is `BLP`/`GTC` sent, and on the server's answer the setting alone changes and one non-login `PrivacySettingChanged` event is raised |
| ClientOps.SetPrivacyThenGet | MessengerLibrary/MessengerClient.cs:351-359 | after an accepted change, reading the setting gives the new value and setting the same value again is refused |
| ClientOps.UnreportedSettingIsRefused | MessengerLibrary/MessengerClient.cs:345-352 | a logged-in client whose login brought no `BLP` row refuses every valid `AcceptInvitations` change with `KeyNotFoundException` |
| ClientOps.AcceptInvitation | MessengerLibrary/MessengerClient.cs:518-544 | a closed or logged-out client refuses without touching the invitation; otherwise the accepted flag is exchanged to set, and acceptance succeeds exactly when it was clear before; when it was set the result is `InvalidOperationException` |
| ClientOps.AcceptTwiceFails | MessengerLibrary/MessengerClient.cs:533-534 | an invitation accepted once is refused with `InvalidOperationException` the second time |
| ClientOps.TakeOffline | MessengerLibrary/MessengerClient.cs:604-611 | every forward-list user ends offline and every other user is unchanged; each event names a forward-list user who was not offline, with that user's previous status, new status offline and the login flag clear |
| ClientOps.OfflineEventsReport | MessengerLibrary/MessengerClient.cs:606-610 | every forward-list user who was online has an event in the pass with its previous status |
| ClientOps.LogoutInner | MessengerLibrary/MessengerClient.cs:587-620 | a logged-out client is left alone with no event; otherwise only the logged-in flag and user statuses change, forward-list users end offline, others keep their state, `LoggedOut` with the reason and error comes first and every later event is an offline status change of a forward-list user who was online |
| ClientOps.LogoutEvents | MessengerLibrary/MessengerClient.cs:613-618 | the events are exactly `LoggedOut` followed by the offline pass's status events, in list order |
| ClientOps.LogoutReportsEveryOnlineUser | MessengerLibrary/MessengerClient.cs:604-618 | every forward-list user who was online gets a status event with its previous status |
| ClientOps.LogoutIsIdempotent | MessengerLibrary/MessengerClient.cs:590-591 | a second logout, for any reason, changes nothing and raises nothing |
| ClientOps.Logout | MessengerLibrary/MessengerClient.cs:566-585 | a closed client throws `ObjectDisposedException`; otherwise the client ends logged out, with `LoggedOut(InitiatedByUser)` first when it was logged in |
| ClientOps.OutReason | MessengerLibrary/MessengerClient.cs:852-857 | `OTH` means logged in elsewhere, `SSD` server shutting down, any other code a connection error; never "initiated by user" |
| ClientOps.HandleOut | MessengerLibrary/MessengerClient.cs:841-868 | an `OUT` from an old connection, or when logged out, changes nothing; one from the current connection logs out with the code's reason first |
| ClientOps.HandleConnectionError | MessengerLibrary/MessengerClient.cs:622-639 | an error from an old connection is ignored; one from the current connection logs out with reason `ConnectionError` carrying the exception |
| ClientOps.Close | MessengerLibrary/MessengerClient.cs:1295-1332 | closing a closed client does nothing; otherwise the client ends closed, logged out, without a local user, `LoggedOut` first when it was logged in and `Closed` last |
| ClientOps.CloseIsIdempotent | MessengerLibrary/MessengerClient.cs:1303-1304 | closing twice is closing once, and afterwards every operation and `LogoutAsync` throw `ObjectDisposedException` |
| ClientOps.Negotiate | MessengerLibrary/MessengerClient.cs:103-206 | a silent server is a timeout; an empty `VER` answer is `ProtocolNotAcceptedException`; after `Close` the missing credentials make the `CVR` a null reference; a failed `CVR` or `USR TWN I` wait fails the loop with its error; a `USR` ticket ends the loop on the current server; a fifth transfer is `InvalidOperationException`; a success lists the servers connected to, starting at the first, at most five, and needs the credentials |
| ClientOps.FifthTransferThrows | MessengerLibrary/MessengerClient.cs:191-194 | on an open client five transfers in a row end in `InvalidOperationException`, whatever follows |
| ClientOps.TransferStep | MessengerLibrary/MessengerClient.cs:186-204 | a followed transfer continues the loop from the server it names, with the same ticket and one more server connected to |
| ClientOps.TransfersThenTicket | MessengerLibrary/MessengerClient.cs:109-206 | on an open client up to four transfers followed by an answered `CVR` and a ticket succeed with that ticket, having connected once per round |
| ClientOps.SyncRequest | MessengerLibrary/MessengerClient.cs:215 | the `SYN` request carries the stored time stamps, `"0"` for a missing one |
| ClientOps.LoginStatusCommand | MessengerLibrary/MessengerClient.cs:252-262 | the login's `CHG` always asks for `NLN`, with the local user's capabilities and display picture, or 0 and `"0"` when there is none |
| ClientOps.GatherRowsAsWritten | MessengerLibrary/MessengerClient.cs:221-237 | a command is kept for the sync exactly when it arrived and belongs to one of the five classes the library lists |
| ClientOps.GatherRows | MessengerLibrary/MessengerClient.cs:221-237 | a command is kept for the sync exactly when it arrived and is one of those five classes or a `BPR` row, which `ProcessSyncCommands` handles |
| ClientOps.PhoneRowIsDropped | MessengerLibrary/MessengerClient.cs:226-232 | a `BPR` row after a contact row is not gathered as written, while gathered as intended it sets the contact's phone number |
| ClientOps.SignIn | MessengerLibrary/MessengerClient.cs:275-281 | a closed client fails with a null reference; on the first login the local user is created at the next id and cached under the login name as given, which throws `ArgumentException` when the name is already cached; either way the local user takes the initial status and lists, groups and stamps are untouched |
| ClientOps.LoginFinish | MessengerLibrary/MessengerClient.cs:264-316 | a failing sign-in fails the login; on success the client is logged in with a local user, the events begin with `LoggedIn` and the local status change; unchanged stamps leave lists and groups alone with just those two events; changed stamps are stored and every remaining list member and group is one the rows gathered as the library gathers them name |
| ClientOps.LoginWaits | MessengerLibrary/MessengerClient.cs:103-262 | the waits fail in the order the login awaits them: the connect loop, the Passport token, `USR TWN S`, `SYN`, the announced `LST`/`LSG` rows (a timeout when fewer arrive) and `CHG`; a closed client whose server offers a version fails with a null reference; when all succeed the `SYN` reply is the result |
| ClientOps.LoginEvents | MessengerLibrary/MessengerClient.cs:309-316 | `LoggedIn`, then the local user's status change from offline marked as a login event, then the sync's events |
| ClientOps.SyncAfterLogin | MessengerLibrary/MessengerClient.cs:221-291 | with the rows gathered and the cleanup run as the library writes them, the sync fails exactly when the row loop throws or something is stale; on success it stores the reply's stamps, keeps the local user and login state, and leaves only list members and groups that the gathered rows name |
| ClientOps.Login | MessengerLibrary/MessengerClient.cs:84-325 | a logged-in client is left alone; any failed wait fails the login with that wait's error, and a closed client whose server offers a version fails with a null reference; otherwise the login finishes as `LoginFinish` says with the `SYN` reply |
| ClientOps.LookupBeforeLoginBreaksLogin | MessengerLibrary/MessengerClient.cs:275-278 | looking up an account before its first login caches it under the lower-case name, so that login, for a name given in lower case, throws `ArgumentException` |
| Collections.NoDuplicatesAppend | MessengerLibrary/MessengerClient.cs:1083-1086 | adding a user a list does not contain keeps the list free of duplicates |
| Collections.RemoveFirst | MessengerLibrary/Users.cs:529-532 | `List.Remove`: an absent element leaves the list alone; a present one shortens it by one; every other element keeps its membership; a duplicate-free list loses the element entirely and stays duplicate-free |
| Collections.RemoveFirstAppended | MessengerLibrary/Users.cs:524-532 | adding then removing an element the list did not hold gives the list back |
| Collections.Except | MessengerLibrary/MessengerClient.cs:1229 | LINQ `Except` yields each element of the first list that is not in the second, once each |
| Dict.Find | MessengerLibrary/MessengerClient.cs:666-672 | the position found holds the key and no earlier entry does; none is found exactly when no entry has the key |
| Dict.Get | MessengerLibrary/MessengerClient.cs:666-672 | `TryGetValue` finds a value exactly when the key is present, and the value is the one stored with it |
| Dict.Index | MessengerLibrary/MessengerClient.cs:351 | the indexer's getter yields the stored value and throws `KeyNotFoundException` exactly when the key is missing |
| Dict.Set | MessengerLibrary/MessengerClient.cs:357 | after the indexer's setter the key maps to the new value, every other key keeps its value, keys stay distinct, a present key keeps its place and a missing key is appended |
| Dict.Add | MessengerLibrary/MessengerClient.cs:278 | `Add` throws `ArgumentException` exactly when the key is present, and otherwise appends the entry, after which the key maps to its value |
| Dict.ToDictionary | MessengerLibrary/Messages.cs:33-35 | a built dictionary has one entry per item, after the starting entries |
| Dict.ToDictionaryEntries | MessengerLibrary/Messages.cs:33-35 | each item's selected entry sits at the item's position |
| Dict.ToDictionaryDistinct | MessengerLibrary/Messages.cs:33-35 | a built dictionary never holds a key twice (a repeated key makes `ToDictionary` throw) |
| Dict.ToDictionaryOk | MessengerLibrary/Messages.cs:139-141 | when every item yields an entry and the keys are distinct, the build succeeds with exactly those entries |
| Dispatch.Identifier | MessengerLibrary/MSNP.cs:45 | the identifier is the longest space-free prefix of the line: the whole line when it has no space, otherwise the text up to the first space |
| Dispatch.IdentifierOfWords | MessengerLibrary/MSNP.cs:45 | a header written as words, or a single word, is identified by its first word |
| Dispatch.FindType | MessengerLibrary/MSNP.cs:47 | a class is found exactly when some table entry has the identifier, and it is that entry's class |
| Dispatch.Classify | MessengerLibrary/MSNP.cs:45-58 | the table's class wins; failing that, a line is a server error exactly when its identifier parses as a 32-bit integer, and is skipped otherwise |
| Dispatch.ServerErrorLine | MessengerLibrary/MSNP.cs:1675-1685 | a numeric reply `code trId` that no table entry claims is read as a server error carrying that code and answering that transaction |
| Dispatch.OutNoticeIsSkipped | MessengerLibrary/MessengerClient.cs:119-151 | the notification server's `OUT` line is skipped by the table as written, and with an `OUT` entry it is read as an `OutCommand` |
| Dispatch.NsTableHasNoO | MessengerLibrary/MessengerClient.cs:119-151 | no identifier of the notification server's table starts with `O` |
| Dispatch.ReadBody | MessengerLibrary/MSNP.cs:694-706 | a classified header is read by its class, and a payload class receives a payload of exactly the announced length |
| Dispatch.ReadCommand | MessengerLibrary/MSNP.cs:38-66 | every skipped line has no class; the returned header has one and is read by it; the end of the stream surfaces as a null reference, with every chunk consumed or an empty read last |
| Events.NewUserStatusEventArgs | MessengerLibrary/EventArgs.cs:82-88 | the status payload keeps its user, statuses and login flag |
| Events.NewGroupUserEventArgs | MessengerLibrary/EventArgs.cs:189-194 | the group-membership payload keeps its user, group and login flag |
| Events.NewLoginMessageEventArgs | MessengerLibrary/EventArgs.cs:253-259 | the sync-time message payload has no sender object, only the login name, nickname, message and flag |
| Events.NewMessageEventArgs | MessengerLibrary/EventArgs.cs:247-251 | the live message payload has a sender and never the login flag |
| Events.NewPrivacySettingEventArgs | MessengerLibrary/EventArgs.cs:22-27 | the payload keeps setting and value while its login flag is false whatever is passed |
| Events.NewUserNicknameEventArgs | MessengerLibrary/EventArgs.cs:65-71 | the payload keeps user and nicknames while its login flag is false whatever is passed |
| Events.NewUserDisplayPictureEventArgs | MessengerLibrary/EventArgs.cs:100-105 | the payload keeps user and picture while its login flag is false whatever is passed |
| Events.NewUserCapabilitiesEventArgs | MessengerLibrary/EventArgs.cs:115-120 | the payload keeps user and capabilities while its login flag is false whatever is passed |
| Events.NewUserPropertyEventArgs | MessengerLibrary/EventArgs.cs:130-136 | the payload keeps user, property and value while its login flag is false whatever is passed |
| Events.NewUserListUserEventArgs | MessengerLibrary/EventArgs.cs:174-179 | the payload keeps user and list while its login flag is false whatever is passed |
| Events.NewGroupNameEventArgs | MessengerLibrary/EventArgs.cs:204-210 | the payload keeps group and names while its login flag is false whatever is passed |
| Events.NewGroupEventArgs | MessengerLibrary/EventArgs.cs:221-225 | the payload keeps its group while its login flag is false whatever is passed |
| Events.NewLoggedOutEventArgs | MessengerLibrary/EventArgs.cs:37-41 | the logout payload carries exactly its reason and connection error |
| Events.LoginEventFlags | MessengerLibrary/EventArgs.cs:22-259 | of the payloads built with the login flag set, only status, group-membership and sync-message payloads report it; the eight others report false |
| Failures.CastToServerError | MessengerLibrary/Exceptions.cs:11-43 | the cast keeps the raw code, naming the enum member when one has it and keeping an unnamed value otherwise |
| Failures.CastIsBijective | MessengerLibrary/Exceptions.cs:22-43 | casting an enum value's code gives the value back, so the cast loses nothing |
| Failures.ServerErrorException | MessengerLibrary/Exceptions.cs:11-16 | the exception keeps the raw code, and its enum value has that code |
| CommandLaws.ArgsOfWords | MessengerLibrary/MSNP.cs:262 | a header written as space-free words splits back into exactly those words |
| CommandLaws.IntToken | MessengerLibrary/MSNP.cs:263 | a 32-bit number's text contains no separator and parses back to the number |
| CommandLaws.WriteDispatch | MessengerLibrary/MSNP.cs:222-242 | each class is written by its own writer, with the transaction id when it has one, and a class without a writer throws `NotImplementedException` |
| CommandLaws.SynchronizeRoundTrip | MessengerLibrary/MSNP.cs:426-470 | a `SYN` request reads back with its transaction id and time stamps; the counts, which the request lacks, read as zero |
| CommandLaws.SynchronizeReadsCounts | MessengerLibrary/MSNP.cs:426-470 | the server's `SYN` reply gives back its time stamps and its user and group counts |
| CommandLaws.AuthenticateRoundTrip | MessengerLibrary/MSNP.cs:340-382 | a `USR` line reads back as the command written |
| CommandLaws.LocalPropertyRoundTrip | MessengerLibrary/MSNP.cs:471-515 | a `PRP` line reads back as the command written, its value percent-escaped on the way out and unescaped on the way in |
| CommandLaws.ChangeUserPropertyRoundTrip | MessengerLibrary/MSNP.cs:585-626 | an `SBP` line reads back as the command written, its value escaped and unescaped |
| CommandLaws.RemoveGroupRoundTrip | MessengerLibrary/MSNP.cs:1424-1456 | an `RMG` line reads back as the command written |
| CommandLaws.RemoveContactRoundTrip | MessengerLibrary/MSNP.cs:1603-1667 | a `REM` line reads back as the command written, with or without its group guid |
| CommandLaws.ChangeStatusRoundTrip | MessengerLibrary/MSNP.cs:534-584 | a `CHG` line reads back as written when it has a display picture; without one it reads back with an empty picture, never none |
| CommandLaws.PrivacySettingRoundTrip | MessengerLibrary/MSNP.cs:850-893 | a `BLP`/`GTC` line reads back as the command written |
| CommandLaws.VersionRoundTrip | MessengerLibrary/MSNP.cs:276-307 | a `VER` line reads back with the same transaction id and protocol names |
| CommandLaws.EnableIMShapes | MessengerLibrary/MSNP.cs:260-272 | the `IMS` line the client writes has no fourth token, so reading it back throws an index error: the class reads the server's shape, not its own |
| CommandLaws.AddGroupShapes | MessengerLibrary/MSNP.cs:1388-1423 | an `ADG` request cannot be read back: the reader wants the guid only the server's reply carries |
| CommandLaws.TransferShapes | MessengerLibrary/MSNP.cs:383-425 | an `XFR` request cannot be read back: the reader wants the host only the server's reply carries |
| CommandLaws.PingShapes | MessengerLibrary/MSNP.cs:1118-1144 | the bare `PNG` cannot be read back, while the server's `QNG` reads as the seconds it carries |
| CommandLaws.SendMessageHeader | MessengerLibrary/MSNP.cs:655-682 | an outgoing `MSG` header carries the transaction id (0 when there is none), the delivery code and the payload's exact byte count, followed by the payload |
| CommandLaws.AcceptChallengeHeader | MessengerLibrary/MSNP.cs:989-1033 | the `QRY` header's length token is the UTF-8 byte count of the response it is followed by |
| CommandLaws.SendBroadcastHeader | MessengerLibrary/MSNP.cs:1145-1189 | the `UUX` header's length token is the UTF-8 byte count of the personal message it is followed by |
| CommandLaws.AddContactRoundTrip | MessengerLibrary/MSNP.cs:1492-1602 | an `ADC` line reads back as the command written, every optional key present exactly when it was given, the nickname escaped and unescaped |
| CommandLaws.UserLineRead | MessengerLibrary/MSNP.cs:779-822 | a contact-list `LST` line in the server's shape gives back the login name, unescaped nickname, guid, the lists its flags name and its groups |
| CommandLaws.UserPlainRead | MessengerLibrary/MSNP.cs:804-819 | the positional tokens of an `LST` line give back the flags and, when present, the comma-separated groups |
| CommandLaws.ReadUserOfFields | MessengerLibrary/MSNP.cs:779-822 | `LST` takes its login from `N=`, its nickname unescaped from `F=`, its guid from `C=`, its lists from the first positional token and its groups from the third |
| CommandLaws.ListsOfBits | MessengerLibrary/MSNP.cs:804-814 | a list code is named exactly when its bit is set in the flags, in the order FL, AL, BL, RL, PL |
| CommandLaws.ListsOfSamples | MessengerLibrary/MSNP.cs:767-770 | the sample rows' flags 3 and 5 name forward plus allow and forward plus block, and all bits set names all five lists |
| Commands.At | MessengerLibrary/MSNP.cs:262-263 | taking a token succeeds exactly when the index is inside the header, and otherwise throws `IndexOutOfRangeException` |
| Commands.IntAt | MessengerLibrary/MSNP.cs:263 | a numeric token is read exactly when it exists and `Int32.Parse` accepts it |
| Commands.ListAt | MessengerLibrary/MSNP.cs:1546-1561 | indexing the list of plain tokens succeeds exactly when the index is inside it, and otherwise throws `ArgumentOutOfRangeException` |
| Commands.IntListAt | MessengerLibrary/MSNP.cs:1560 | a number from the list of plain tokens is `Int32.Parse` of that token when it exists, and `ArgumentOutOfRangeException` when it does not |
| Commands.UIntAt | MessengerLibrary/MSNP.cs:568 | an unsigned token is read exactly when it exists and `UInt32.Parse` accepts it |
| Commands.Lookup | MessengerLibrary/MSNP.cs:796-802 | a key found in the parsed `key=value` pairs is paired with that value; a missing key is in no pair |
| Commands.Tokenize | MessengerLibrary/MSNP.cs:785-793 | the only way the token loop fails is `Dictionary.Add` meeting a repeated key, which is `ArgumentException` |
| Commands.ReadUser | MessengerLibrary/MSNP.cs:779-822 | an `LST` row that reads is a user row with no transaction id; a row with its `N=` key but no list flags throws the list's `ArgumentOutOfRangeException` |
| Commands.ReadAddContact | MessengerLibrary/MSNP.cs:1545-1580 | an `ADC` line that reads carries a transaction id and is an add-contact command; one with fewer than three plain tokens throws the list's `ArgumentOutOfRangeException` once the transaction id is read |
| Commands.ReadLocalProperty | MessengerLibrary/MSNP.cs:488-505 | a `PRP` line has a transaction id exactly when it has more than three tokens |
| Commands.ReadPrivacySetting | MessengerLibrary/MSNP.cs:866-884 | a `BLP`/`GTC` line has a transaction id exactly when it does not have two tokens |
| Commands.ReadMessage | MessengerLibrary/MSNP.cs:694-706 | an `MSG` header that reads still waits for its payload |
| Commands.ReadBroadcast | MessengerLibrary/MSNP.cs:717-733 | a `UBX` header that reads still waits for its payload |
| Commands.ReadNotification | MessengerLibrary/MSNP.cs:744-760 | a `NOT` header that reads still waits for its payload |
| Commands.PayloadOf | MessengerLibrary/MSNP.cs:701-702 | a payload buffer exists exactly for a non-negative length; a negative one makes `new byte[]` throw |
| Commands.WithPayload | MessengerLibrary/MSNP.cs:704-757 | filling in the payload keeps the command's class and transaction id |
| Commands.Read | MessengerLibrary/MSNP.cs:227-230 | only the three classes followed by a payload can be left waiting for one |
| Commands.Write | MessengerLibrary/MSNP.cs:232-235 | a class without its own writer throws `NotImplementedException`, and that is the only failure |
| Connections.ParseEndPoint | MessengerLibrary/Connections.cs:287-291 | a parsed end point has a colon-free address and a 32-bit port; text without a colon throws an index error, and every failure is an index, format or overflow error |
| Connections.EndPointRoundTrip | MessengerLibrary/Connections.cs:282-291 | an end point with a colon-free address and a 32-bit port parses back from its `ToString` |
| Connections.DefaultServerParses | MessengerLibrary/MessengerClient.cs:105 | the first server the login dials is `messenger.hotmail.com` on port 1863 |
| Connections.SocketFailure | MessengerLibrary/Connections.cs:182-190 | a socket error throws a connection exception and raises `Error` only if it was never raised on this connection |
| Connections.Receive | MessengerLibrary/Connections.cs:201-229 | a closed connection throws `ObjectDisposedException`; a read of zero bytes is an unexpected disconnect that raises no `Error`; a socket error raises `Error` once; a successful read returns between 1 and `size` bytes |
| Connections.ZeroReadKeepsErrorArmed | MessengerLibrary/Connections.cs:209-221 | after a zero-byte read the `Error` event is still armed, so a later socket error raises it |
| Connections.SendLoop | MessengerLibrary/Connections.cs:167-178 | what reaches the wire is always a prefix of the requested slice, at least what was already written; when `remains` counts down by the bytes sent, the whole slice is written |
| Connections.SendWith | MessengerLibrary/Connections.cs:161-197 | an empty send writes nothing and never reaches the socket; otherwise a closed connection is `ObjectDisposedException` before the range is looked at, and on an open one a slice past the buffer is `ArgumentOutOfRange`; neither raises `Error`; and a success writes a prefix of the slice (the whole slice when `remains` counts down by the bytes sent) |
| Connections.Send | MessengerLibrary/Connections.cs:161-197 | `SendAsync` as written: a closed connection is `ObjectDisposedException`, then a slice past the buffer on an open one is `ArgumentOutOfRange`; a success writes only a prefix of the requested slice |
| Connections.SendAll | MessengerLibrary/Connections.cs:161-197 | `SendAsync` as intended: the same two refusals in the same order, and a success writes exactly the requested slice |
| Connections.SendStopsAfterOnePartialWrite | MessengerLibrary/Connections.cs:172-177 | a socket that takes 4 bytes per call leaves 6 of 10 bytes unsent while `SendAsync` reports success; the corrected loop sends all 10 |
| Connections.ErrorRaisedOnce | MessengerLibrary/Connections.cs:187-188 | once `Error` has been raised, neither a receive nor a send raises it again |
| Connections.Close | MessengerLibrary/Connections.cs:234-252 | `Close` leaves the connection closed, with the error flag unchanged, and shuts the socket down only the first time |
| Connections.CloseIsIdempotent | MessengerLibrary/Connections.cs:237-238 | closing twice is closing once |
| Formatting.Effects | MessengerLibrary/Messages.cs:120 | the `EF` field holds `B`, `I`, `U` and `S` exactly when bold, italic, underline and strikethrough are set |
| Formatting.EffectsInOrder | MessengerLibrary/Messages.cs:120 | the effect letters appear in the order B, I, U, S, each at most once |
| Formatting.ColorCode | MessengerLibrary/Messages.cs:121 | the `CO` field is six hex digits: blue, green, red, two each |
| Formatting.RequirePlainText | MessengerLibrary/Messages.cs:114-115 | only a plain UTF-8 text message passes; a missing content type throws `KeyNotFoundException` and any other type `InvalidOperationException` |
| Formatting.ApplyFormat | MessengerLibrary/Messages.cs:111-126 | a non-text message is refused; otherwise the format header holds the formatter's five fields and every other header and the body are untouched |
| Formatting.ParseField | MessengerLibrary/Messages.cs:139-141 | a field without `=` throws an index error |
| Formatting.ReadFields | MessengerLibrary/Messages.cs:143-163 | `FN` sets the unescaped font, `EF` sets each effect exactly when its letter occurs and `CO` sets the colour as `ReadColor` reads it, failing exactly when that read fails; an absent field leaves its properties alone |
| Formatting.WordPairs | MessengerLibrary/Messages.cs:157 | every match of the two-character pattern is two word characters |
| Formatting.HexPair | MessengerLibrary/Messages.cs:161 | a pair reads as a byte exactly when both characters are hex digits, high digit first |
| Formatting.ReadColor | MessengerLibrary/Messages.cs:154-161 | `"0"` leaves the colour; three matched pairs read in reverse order give red, green and blue, and the read throws `FormatException` exactly when a pair is not hex |
| Formatting.WordPairsOfColorCode | MessengerLibrary/Messages.cs:157 | a written colour code matches as its three hex pairs |
| Formatting.ReadColorCode | MessengerLibrary/Messages.cs:113-161 | the colour `ApplyFormat` writes reads back as itself, whatever the reader's colour was |
| Formatting.CopyFormatReadsFields | MessengerLibrary/Messages.cs:111-152 | reading back a message `ApplyFormat` wrote reads exactly the fields it wrote |
| Formatting.ReadFormatFields | MessengerLibrary/Messages.cs:113-163 | the written fields read back to the same effects and colour, and the same font when it is ASCII |
| Formatting.CopyFormat | MessengerLibrary/Messages.cs:128-165 | a non-text message is refused with the content-type error; a text message without a format header leaves the formatter alone; otherwise a malformed field list fails with its error and the fields are read as `ReadFields` says |
| Formatting.CopyFormatBetween | MessengerLibrary/Messages.cs:97-108 | both messages must be plain text (the source checked first); a source without a format header leaves the destination alone; otherwise the destination takes the source's format header and nothing else changes |
| Formatting.ReadFormatValue | MessengerLibrary/Messages.cs:125-141 | the written format header splits and parses back into exactly the five fields written |
| Formatting.CopyFormatAfterApply | MessengerLibrary/Messages.cs:111-165 | applying a formatter and reading the message back restores every effect and the colour, and the font when it is ASCII |
| GroupOps.CheckName | MessengerLibrary/Groups.cs:34-38 | a missing or empty name throws `ArgumentNullException`, one over 61 UTF-8 bytes `ArgumentException`, and any other name passes |
| GroupOps.WithMembers | MessengerLibrary/Users.cs:524-532 | replacing a group's members changes that group's members alone, and keeps the client valid when the new members are valid and distinct |
| GroupOps.RenameGroup | MessengerLibrary/Groups.cs:31-76 | the name is checked before the lock; a group no longer in use and the group's own name are refused; only an accepted rename sends `REG` with the group's guid, and on the answer the group alone takes the name with one non-login `GroupNameChanged` event carrying the previous name |
| GroupOps.RenameToSingleDuplicate | MessengerLibrary/Groups.cs:57-58 | renaming to the name of exactly one other group is accepted, since the guard refuses only when two groups already hold it |
| GroupOps.AddMember | MessengerLibrary/Groups.cs:80-118 | a group no longer in use, a user not on the forward list and a user already in the group are refused; otherwise `ADC` is sent with the forward list, the user's guid and the group's guid; on the answer the user is appended to the group with one `UserAddedToGroup` event |
| GroupOps.RemoveMember | MessengerLibrary/Groups.cs:122-150 | a group no longer in use and a user not in it are refused; otherwise `REM` is sent with the user's guid and the group's guid; on the answer the user is no longer a member, the others are, and one `UserRemovedFromGroup` event is raised |
| GroupOps.AddThenRemoveMember | MessengerLibrary/Groups.cs:80-150 | adding a user to a group and then removing them gives the client back |
| GroupOps.CreateGroup | MessengerLibrary/MessengerClient.cs:405-451 | the name is checked first; thirty groups already is `InvalidOperationException`; `ADG` is sent exactly when the client is ready, has fewer than thirty groups and none holds the name; on the answer a group with the server's guid, the name and no members is appended, with one `GroupAdded` event |
| GroupOps.RemoveGroup | MessengerLibrary/MessengerClient.cs:453-488 | a group no longer in use or with members is refused; otherwise `RMG` is sent with its guid, and on the answer it leaves the group list with one `GroupRemoved` event |
| GroupOps.CreateThenRemove | MessengerLibrary/MessengerClient.cs:405-488 | creating a group and then removing it gives the group list back |
| Handshake.ToHex | MessengerLibrary/HandshakeUtility.cs:79-86 | each byte becomes exactly two lower-case hex digits, so the text is twice as long as the bytes |
| Handshake.ToHexPairs | MessengerLibrary/HandshakeUtility.cs:82-83 | the `i`-th pair of digits is byte `i` left-padded to two digits |
| Handshake.ToHexAppend | MessengerLibrary/HandshakeUtility.cs:79-86 | the hex of a concatenation is the concatenation of the hexes |
| Handshake.HexNumOfToHex | MessengerLibrary/HandshakeUtility.cs:79-86 | read back as a hex number, the text is the big-endian value of the bytes |
| Handshake.SwapPairs | MessengerLibrary/HandshakeUtility.cs:88-96 | reversing two-character pairs succeeds exactly on even-length text, keeps the length, and otherwise fails the way `Substring` past the end does |
| Handshake.SwapPairsAppend | MessengerLibrary/HandshakeUtility.cs:88-96 | swapping a concatenation swaps each part and puts the second part first |
| Handshake.SwapPairsInvolution | MessengerLibrary/HandshakeUtility.cs:88-96 | swapping pairs twice gives the original text back |
| Handshake.SwapToHex | MessengerLibrary/HandshakeUtility.cs:53 | pair-swapping the hex of some bytes gives the hex of the bytes in reverse order |
| Handshake.BigEndianReverse | MessengerLibrary/HandshakeUtility.cs:42 | the big-endian value of reversed bytes is their little-endian value, which is what the swap-then-parse idiom computes |
| Handshake.ParseULong | MessengerLibrary/HandshakeUtility.cs:31-32 | a hex parse succeeds only on non-empty all-hex text whose value fits in 64 bits; empty text is a `FormatException` |
| Handshake.ParseHexIsHexNum | MessengerLibrary/HandshakeUtility.cs:31-32 | digit-by-digit parsing succeeds exactly on non-empty hex text and yields its numeric value |
| Handshake.ParseULongOfToHex | MessengerLibrary/HandshakeUtility.cs:31-32 | the hex of one to eight bytes parses back to their big-endian value |
| Handshake.FormatHex | MessengerLibrary/HandshakeUtility.cs:33 | `{0:xN}` produces non-empty lower-case hex |
| Handshake.FormatHexValue | MessengerLibrary/HandshakeUtility.cs:33 | a value that fits formats to exactly the requested width and reads back as that value |
| Handshake.FormatHexIsToHex | MessengerLibrary/HandshakeUtility.cs:73-74 | formatting a value with two digits per byte gives the hex of its big-endian bytes |
| Handshake.HexTextUnique | MessengerLibrary/HandshakeUtility.cs:33 | two lower-case hex texts of equal length and value are the same text |
| Handshake.PadChallenge | MessengerLibrary/HandshakeUtility.cs:26 | padding appends between one and eight `'0'`s and leaves a multiple of eight characters, keeping the original text as prefix |
| Handshake.DigestWord | MessengerLibrary/HandshakeUtility.cs:42 | each digest word is masked with `0x7FFFFFFF`, so it is below 2^31 |
| Handshake.DigestWords | MessengerLibrary/HandshakeUtility.cs:36-45 | a 32-digit digest yields four words, each below 2^31 |
| Handshake.DigestWordOfBytes | MessengerLibrary/HandshakeUtility.cs:42 | the word read from the hex of four digest bytes is their little-endian value with the top bit cleared |
| Handshake.DigestWordsOfDigest | MessengerLibrary/HandshakeUtility.cs:22-23 | `MD5_To_Int` of a digest's hex never fails and gives its four little-endian words masked to 31 bits |
| Handshake.BlockWord | MessengerLibrary/HandshakeUtility.cs:53 | a challenge word that parses is a 64-bit value |
| Handshake.BlockWords | MessengerLibrary/HandshakeUtility.cs:47-56 | one word per four characters; text whose length is not a multiple of four fails on the trailing `Substring` |
| Handshake.BlockWordOfAscii | MessengerLibrary/HandshakeUtility.cs:53 | for four ASCII characters the word is the little-endian value of their codes |
| Handshake.BlockWordsOfAscii | MessengerLibrary/HandshakeUtility.cs:47-56 | for ASCII text of whole blocks `CHLID_To_Int` never fails, and gives each block's little-endian word, each below 2^32 |
| Handshake.TextWordsOfAscii | MessengerLibrary/HandshakeUtility.cs:25-27 | padded ASCII challenge text always converts, to an even number of 32-bit words |
| Handshake.Wrap | MessengerLibrary/HandshakeUtility.cs:64-70 | every `ulong` operation result is reduced below 2^64 |
| Handshake.WrappedRound | MessengerLibrary/HandshakeUtility.cs:64-68 | after each pass `temp` and `high` are below the modulus `0x7FFFFFFF` |
| Handshake.KeyLoop | MessengerLibrary/HandshakeUtility.cs:61-71 | the loop finishes exactly when the word count is even; an odd count reads past the array end (`IndexOutOfRangeException`) |
| Handshake.CreateKey | MessengerLibrary/HandshakeUtility.cs:58-77 | the key exists exactly for an even word count, and is a 64-bit value |
| Handshake.ReversedWordIsByteSwap | MessengerLibrary/HandshakeUtility.cs:73-74 | formatting, pair-swapping and reparsing a 32-bit value reverses its four bytes |
| Handshake.ByteSwapIsLittleEndian | MessengerLibrary/HandshakeUtility.cs:73-74 | reversing a 32-bit value's bytes equals reading its big-endian bytes little-endian |
| Handshake.JoinHalvesIsExact | MessengerLibrary/HandshakeUtility.cs:76 | `(high << 32) + low` of two 32-bit halves does not wrap |
| Handshake.JoinWordsIsExact | MessengerLibrary/HandshakeUtility.cs:73-76 | joining the two byte-reversed words through text equals the exact arithmetic join |
| Handshake.WrappedRoundIsExact | MessengerLibrary/HandshakeUtility.cs:64-68 | for digest words below 2^31 and challenge words below 2^32 no product or sum in a pass overflows 64 bits |
| Handshake.KeyLoopIsExact | MessengerLibrary/HandshakeUtility.cs:61-71 | the wrapping loop keeps the exact `high` and keeps `low` exactly modulo 2^64 |
| Handshake.FinishKeyIsExact | MessengerLibrary/HandshakeUtility.cs:73-76 | finishing from `low` kept modulo 2^64 gives the exact key, a 64-bit value |
| Handshake.CreateKeyIsExact | MessengerLibrary/HandshakeUtility.cs:58-77 | on words in range `Create_Key` equals the key computed in exact arithmetic |
| Handshake.XorBound | MessengerLibrary/HandshakeUtility.cs:33 | masking two `n`-bit values stays within `n` bits |
| Handshake.XorTwice | MessengerLibrary/HandshakeUtility.cs:33 | masking twice with the key gives the value back |
| Handshake.MaskedHalf | MessengerLibrary/HandshakeUtility.cs:33 | a masked 64-bit half formats as sixteen digits that read back as the masked value |
| Handshake.ChallengeResponse | MessengerLibrary/HandshakeUtility.cs:15-34 | the `QRY` answer, when it exists, is lower-case hex |
| Handshake.ResponseKeyIsExact | MessengerLibrary/HandshakeUtility.cs:22-29 | for ASCII challenge text the digest words, the challenge words and the key are all produced without failure and equal their exact definitions |
| Handshake.ChallengeResponseIsExact | MessengerLibrary/HandshakeUtility.cs:15-34 | for ASCII challenge text the transform never fails and answers with 32 hex digits: both digest halves masked by the key |
| Handshake.ResponseUnmasks | MessengerLibrary/HandshakeUtility.cs:31-33 | unmasking each half of the answer with the key gives back the corresponding eight bytes of the digest |
| Helpers.Concat | MessengerLibrary/Helpers.cs:42-52 | the result is the first array followed by the second, with the combined length |
| Helpers.Compare | MessengerLibrary/Helpers.cs:85-93 | true exactly when the count is zero or both ranges lie inside their arrays and hold the same elements; a range running past either end is false, not an exception |
| Helpers.IndexFrom | MessengerLibrary/Helpers.cs:78-82 | the search from `i` returns the first position at or after `i` where the value matches, or `-1` when none does |
| Helpers.IndexOf | MessengerLibrary/Helpers.cs:75-83 | the result is the first index where the value occurs in the source, with no occurrence before it; `-1` means it occurs nowhere |
| Helpers.IndexOfEmptyValue | MessengerLibrary/Helpers.cs:75-83 | an empty value is found at index 0 of a non-empty source, but not in an empty one, because the loop never runs |
| Helpers.Split | MessengerLibrary/Helpers.cs:54-73 | the split fails with both outputs empty exactly when the separator is absent; otherwise the source is the first part, the separator and the second part, and the first part holds no occurrence |
| Helpers.SplitOn | MessengerLibrary/Helpers.cs:32-35 | a string split with `StringSplitOptions.None` always gives at least one part |
| Helpers.JoinOnAppend | MessengerLibrary/Helpers.cs:32-35 | joining two runs of parts is joining each and putting one separator between them |
| Helpers.SplitOnCut | MessengerLibrary/Helpers.cs:32-35 | the first part ends at the first occurrence of the separator, and the rest is split the same way |
| Helpers.JoinSplit | MessengerLibrary/Helpers.cs:32-35 | re-joining the parts of a split with the separator gives the source back |
| Helpers.SplitJoin | MessengerLibrary/Helpers.cs:32-35 | splitting the join of parts that hold no separator gives those parts back |
| Helpers.IndexOfAfterPart | MessengerLibrary/Helpers.cs:75-83 | after a separator-free part the first occurrence is the separator that follows it |
| Helpers.SplitJoinChar | MessengerLibrary/MSNP.cs:262 | with a one-character separator, splitting the join of parts that do not contain it gives the parts back |
| Helpers.TakeUntil | MessengerLibrary/Helpers.cs:13-25 | the items passed on are a prefix of the source; only the last of them can satisfy the predicate; the stream stops early only right after an item that does, and passes everything when none does |
| Text.ParseInteger | MessengerLibrary/MSNP.cs:263 | a parsed number lies in the requested range; empty or all-white text is a `FormatException`, and every failure is a format or overflow error |
| Text.ParseSigned | MessengerLibrary/MSNP.cs:263 | an optional sign and at least one digit give a number in the requested range; empty text is a `FormatException`, and every failure is a format or overflow error |
| Text.TrimLeadingWhite | MessengerLibrary/MSNP.cs:263 | what is left after the leading white space `Int32.Parse` skips starts with no white space, and is empty for all-white text |
| Text.TrimTrailingWhite | MessengerLibrary/MSNP.cs:263 | what is left after the trailing white space starts like the text and ends with no white space |
| Text.TrimLeadingWhiteIsSuffix | MessengerLibrary/MSNP.cs:263 | the leading trim keeps a suffix and drops only white space |
| Text.TrimTrailingWhiteIsPrefix | MessengerLibrary/MSNP.cs:263 | the trailing trim keeps a prefix and drops only white space |
| Text.ParseIntegerIgnoresWhite | MessengerLibrary/MSNP.cs:263 | white space on either side of a number does not change what `Int32.Parse` reads |
| Text.ParseIntegerTrims | MessengerLibrary/MSNP.cs:263 | whatever the text, `Int32.Parse` reads the signed number left after trimming white space at both ends |
| Text.ParseIntegerRejectsLetter | MessengerLibrary/MSNP.cs:263 | text starting with anything but white space, a digit or a sign is a `FormatException` |
| Text.ParseInt32 | MessengerLibrary/MSNP.cs:263 | `Int32.Parse` yields only 32-bit signed values |
| Text.ParseUInt32 | MessengerLibrary/MSNP.cs:568 | `UInt32.Parse` yields only values from 0 to 2^32-1 |
| Text.NatToString | MessengerLibrary/MSNP.cs:511 | a natural prints as a non-empty run of digits with no leading zero |
| Text.IntToString | MessengerLibrary/MSNP.cs:511 | an integer prints as a command-line token that starts with `-` exactly when it is negative |
| Text.DigitsValueOfNatToString | MessengerLibrary/MSNP.cs:263 | the printed digits read back as the number |
| Text.ParseIntToString | MessengerLibrary/MSNP.cs:263 | any integer inside the range prints and then parses back to itself |
| Text.IntToStringExcludes | MessengerLibrary/MSNP.cs:511 | a printed integer contains no character other than digits and `-` |
| Text.HexValueOfDigit | MessengerLibrary/Messages.cs:121 | each hex digit, upper or lower case, reads back as its value |
| Text.ByteToHex | MessengerLibrary/Messages.cs:121 | `ToString("X2")` gives two digits, high nibble first, in the requested case |
| Text.Utf8EncodeChar | MessengerLibrary/IO.cs:32 | one to four bytes per character, and exactly one byte for ASCII |
| Text.Utf16Length | MessengerLibrary/Users.cs:378 | `string.Length` counts between one and two UTF-16 units per character |
| Text.Utf16LengthBmp | MessengerLibrary/Users.cs:378 | text inside the Basic Multilingual Plane has one unit per character |
| Text.Utf16LengthRepeat | MessengerLibrary/Users.cs:378 | a character repeated n times has n times its unit count |
| Text.Utf8EncodeAscii | MessengerLibrary/IO.cs:32 | ASCII text encodes to its own character codes, one byte each |
| Text.DecodeEncodeAscii | MessengerLibrary/IO.cs:169 | decoding the encoding of ASCII text gives the text back |
| Text.Utf8EncodeAppend | MessengerLibrary/IO.cs:32 | encoding distributes over concatenation |
| Text.Escape | MessengerLibrary/MSNP.cs:511 | `Uri.EscapeDataString` never shortens text |
| Text.Unescape | MessengerLibrary/MSNP.cs:503 | `Uri.UnescapeDataString` never lengthens text |
| Text.UnescapeEscape | MessengerLibrary/MSNP.cs:503-511 | unescaping the escaped form of ASCII text gives the text back |
| Text.EscapeAlphabet | MessengerLibrary/MSNP.cs:511 | escaped text uses only unreserved characters, `%` and upper-case hex digits |
| Text.EscapeIsDelimiterFree | MessengerLibrary/MSNP.cs:511 | escaped text holds no space, line break or other delimiter, so non-empty escaped text is one command token |
| Text.ToLower | MessengerLibrary/MessengerClient.cs:716 | lower-casing keeps the length and maps each character by itself, leaving no upper-case ASCII letter (ASCII only, see Left out) |
| Text.ToLowerCaseInsensitive | MessengerLibrary/MessengerClient.cs:716 | two login names share a cache key exactly when they are equal ignoring ASCII case |
| Text.ToLowerIdempotent | MessengerLibrary/MessengerClient.cs:716 | lower-casing a key twice is lower-casing it once |
| LineIO.NewReader | MessengerLibrary/IO.cs:62-66 | a new reader starts with an empty buffer and satisfies the reader invariant |
| LineIO.TerminatorIsOccurrence | MessengerLibrary/IO.cs:139-154 | a CR followed by LF is exactly an occurrence of the two-byte line terminator |
| LineIO.IndexOfByte | MessengerLibrary/IO.cs:139 | `Array.IndexOf` from a start index returns the first position at or after it holding the byte, or `-1` when none does |
| LineIO.GetLineFromBuffer | MessengerLibrary/IO.cs:131-171 | a line comes out exactly when the buffer holds a CRLF; the line is everything before the first one, and the buffer keeps exactly what follows it, with the cursor reset; with no complete line the buffer is unchanged and the cursor rests at the end or on a trailing CR; the cursor invariant holds throughout |
| LineIO.NoTerminator | MessengerLibrary/IO.cs:136-158 | a buffer in which no CR is followed by LF holds no terminator |
| LineIO.FirstTerminator | MessengerLibrary/IO.cs:153-165 | the first CRLF not already passed by the cursor is the first in the buffer, and cutting there is the terminator split |
| LineIO.LineText | MessengerLibrary/IO.cs:169 | a received line becomes text of the same length |
| LineIO.GetMoreData | MessengerLibrary/IO.cs:173-189 | reading reports more data exactly when the read returned bytes, appends them to the buffer and keeps the cursor and the reader invariant |
| LineIO.TakeFromBufferAsWritten | MessengerLibrary/IO.cs:88-106 | with too few bytes nothing changes; with enough bytes and a non-zero destination offset the second `BlockCopy` overruns the new buffer and throws |
| LineIO.TakeFromBufferAsWrittenRejectsOffset | MessengerLibrary/IO.cs:97 | a one-byte buffer taken into offset 1 of a two-byte destination throws `ArgumentException` |
| LineIO.TakeFromBuffer | MessengerLibrary/IO.cs:88-106 | with enough bytes the first `count` land at the destination offset, the rest of the destination is untouched, and the buffer loses exactly those bytes; the copy throws exactly when the destination is too small |
| LineIO.TakeFromBufferAtZero | MessengerLibrary/IO.cs:88-106 | at offset 0, the only offset the library uses, the code as written and the corrected copy agree |
| LineIO.TakeFromBufferKeepsValid | MessengerLibrary/IO.cs:88-106 | taking bytes keeps the reader invariant |
| LineIO.FlattenAppend | MessengerLibrary/IO.cs:182-183 | the received bytes after one more read are the earlier bytes followed by that read |
| LineIO.ReadLine | MessengerLibrary/IO.cs:108-129 | the line returned is the text before the first CRLF in everything buffered plus the reads consumed, and the buffer keeps what follows; `null` comes only with no CRLF and either all reads consumed or the last read empty, with everything kept in the buffer |
| LineIO.ReadAsync | MessengerLibrary/IO.cs:68-106 | on success the requested bytes fill the destination range and the buffer keeps exactly what follows them; `false` means the stream ended with fewer than `count` bytes and an untouched destination; taking the bytes as written, a non-zero offset or a too small destination throws, and offset 0 with room never does |
| LineIO.WriteLine | MessengerLibrary/IO.cs:27-36 | the bytes written are the UTF-8 line followed by CRLF |
| LineIO.WrittenLineIsRead | MessengerLibrary/IO.cs:27-171 | an ASCII line without CR, once written, is read back as the same line, leaving what followed it in the buffer |
| LocalUserOps.NicknameFailure | MessengerLibrary/Users.cs:234-245 | an illegal-nickname server error becomes `ArgumentException`, changing too rapidly becomes `ChangingTooRapidlyException`, and any other failure passes unchanged |
| LocalUserOps.RapidFailure | MessengerLibrary/Users.cs:284-290 | only changing too rapidly is translated; every other failure passes unchanged |
| LocalUserOps.PictureToken | MessengerLibrary/Users.cs:321 | the empty display picture is sent as `0`, any other as its serialised object |
| LocalUserOps.WithUser | MessengerLibrary/Users.cs:228-229 | replacing the local user changes that user alone and keeps the client invariant |
| LocalUserOps.ChangeNickname | MessengerLibrary/Users.cs:202-250 | a missing or empty nickname is `ArgumentNullException`; more than 387 UTF-8 bytes is `ArgumentException`; `MFN` is sent exactly when the client is open, logged in and the nickname differs; on the server's answer only the local nickname changes and one `UserNicknameChanged` event carries the old and new names; server errors are translated |
| LocalUserOps.RepeatedNicknameIsRefused | MessengerLibrary/Users.cs:222-223 | after a nickname change, asking for the same nickname again is refused with `ArgumentException` |
| LocalUserOps.ChangeStatus | MessengerLibrary/Users.cs:255-296 | going offline is `ArgumentException`; `CHG` is sent, with the current capabilities and picture, exactly when the client is open, logged in and the status differs; on the answer only the status changes and one `UserStatusChanged` event is raised |
| LocalUserOps.RepeatedStatusIsRefused | MessengerLibrary/Users.cs:272-273 | setting the status just set is refused with `ArgumentException` |
| LocalUserOps.ChangeCapabilities | MessengerLibrary/Users.cs:300-336 | `CHG` is sent with the current status and picture exactly when the client is open, logged in and the capabilities differ; while offline the status has no wire form and the change is `NotSupportedException`; on the answer only the capabilities change and one event is raised |
| LocalUserOps.ChangeDisplayPicture | MessengerLibrary/Users.cs:338-373 | `CHG` carries the new picture exactly when the client is open, logged in and the picture differs; on the answer only the picture changes and one event is raised |
| LocalUserOps.Broadcast | MessengerLibrary/Users.cs:375-405 | a null message is `NullReferenceException`, 999 UTF-16 units or more `ArgumentException`, an empty one `ArgumentNullException`; otherwise `UUX` is sent when the client is ready, and success changes nothing |
| LocalUserOps.BroadcastCountsUtf16Units | MessengerLibrary/Users.cs:378 | five hundred characters outside the Basic Multilingual Plane are refused as too long |
| LocalUserOps.CheckPropertyValue | MessengerLibrary/Users.cs:410-436 | phone values must be present and at most 95 UTF-8 bytes; `HasBlog` is never settable; the device properties accept only their two values; authorising mobile use needs the mobile device enabled first, else `InvalidOperationException` |
| LocalUserOps.SetUserProperty | MessengerLibrary/Users.cs:407-460 | `PRP` is sent exactly when the value is valid, the client is open and logged in, and the value differs; on the answer the local user's property reads the new value and one `UserPropertyChanged` event is raised; server errors pass unchanged |
| LocalUserOps.RepeatedPropertyIsRefused | MessengerLibrary/Users.cs:449-450 | after setting a property, setting the same value again sends nothing |
| Messages.ContentType | MessengerLibrary/Messages.cs:41-45 | reading the content type succeeds exactly when the header exists and yields its value; otherwise it is `KeyNotFoundException` |
| Messages.WithContentType | MessengerLibrary/Messages.cs:46-49 | after setting, the content type reads back as the new value, and the body and every other header are unchanged |
| Messages.ParseHeaderLine | MessengerLibrary/Messages.cs:34-35 | a header line without `": "` has no second part and throws `IndexOutOfRangeException`; otherwise the name and value are the first two parts of the split |
| Messages.Parse | MessengerLibrary/Messages.cs:21-39 | a payload with no blank line is `InvalidOperationException`; a parsed message's body is exactly what follows the first blank line, and its header names are distinct; every failure is one of the three exceptions the constructor can raise |
| Messages.ToDictionaryFailure | MessengerLibrary/Messages.cs:33-35 | building the header dictionary fails only on a line with no value or a repeated name |
| Messages.GetBytes | MessengerLibrary/Messages.cs:56-72 | the serialised message is the UTF-8 header block, one more line break and then the body |
| Messages.LinesOf | MessengerLibrary/Messages.cs:61-62 | one `name: value` line per header, in order |
| Messages.HeaderBlockIsJoin | MessengerLibrary/Messages.cs:59-64 | the header block is the header lines joined by line breaks, followed by one more |
| Messages.ParseLineOf | MessengerLibrary/Messages.cs:34-35 | a written header line parses back to the same name and value |
| Messages.ParseGetBytes | MessengerLibrary/Messages.cs:21-72 | a message with well-formed headers, once serialised, parses back to the same headers and body |
| Messages.ParseJoinedLines | MessengerLibrary/Messages.cs:21-39 | header lines joined by line breaks, the blank line and a body parse to exactly those headers and that body |
| Messages.SplitAtHeaderEnd | MessengerLibrary/Messages.cs:28 | the first blank line of a serialised message is the one after its headers, whatever the body holds |
| Messages.NewMessageIsPlainText | MessengerLibrary/Messages.cs:13-19 | a new message is plain text and survives a serialise-then-parse round trip |
| Roster.ListCode | MessengerLibrary/UserLists.cs:107-160 | each list has a two-letter code |
| Roster.ListOrderIsComplete | MessengerLibrary/UserLists.cs:184-195 | the five lists are each present once, and their codes are pairwise distinct |
| Roster.NewClientIsValid | MessengerLibrary/MessengerClient.cs:68-82 | a new client satisfies the roster invariant: every id in the lists, groups and cache names a known user or group, with no repeats |
| Roster.ValidAfterListUpdate | MessengerLibrary/UserLists.cs:13-105 | replacing a list by one of known, distinct users keeps the invariant |
| Roster.ValidAfterMembersUpdate | MessengerLibrary/Groups.cs:80-150 | replacing a group's members by known, distinct users keeps the invariant |
| Roster.GetUserInner | MessengerLibrary/MessengerClient.cs:706-742 | after close, when the cache is gone, locking it fails with `ArgumentNullException`; otherwise the lower-cased name maps to the returned user; a user is created exactly when the name was not cached, and then only that user and that cache entry are added; a cached user is returned with nothing changed |
| Roster.GetUserIsCaseInsensitive | MessengerLibrary/MessengerClient.cs:716 | looking up a name that differs only in case returns the same user without creating one |
| Roster.CreatedUserIsLowercased | MessengerLibrary/MessengerClient.cs:716-733 | a user created by a lookup has the lower-cased login name |
| Roster.UpdateNicknameFromIM | MessengerLibrary/Users.cs:69-73 | a user on the forward list keeps their nickname; any other user takes the nickname seen in the conversation; nothing else changes |
| Roster.PrivacySettingToString | MessengerLibrary/MessengerClient.cs:1339-1351 | each setting has a three-letter code |
| Roster.StringToPrivacySetting | MessengerLibrary/MessengerClient.cs:1353-1364 | only `GTC` and `BLP` are recognised; anything else is `NotSupportedException` |
| Roster.PrivacyCodes | MessengerLibrary/MessengerClient.cs:1339-1364 | the two conversions are inverse to each other |
| Roster.GetPrivacy | MessengerLibrary/MessengerClient.cs:666-672 | a setting never stored reads as empty text, a stored one as its value |
| Roster.SetPrivacy | MessengerLibrary/MessengerClient.cs:674-685 | after storing, the setting reads back as the new value, every other setting reads as before, the entry is removed exactly when the value is empty, and nothing else in the client changes |
| Roster.GetPrivacySetting | MessengerLibrary/MessengerClient.cs:556-559 | the public read fails with `NullReferenceException` exactly when the client is closed, and otherwise returns the stored value |
| Roster.CountNamed | MessengerLibrary/MessengerClient.cs:427-428 | no group is counted exactly when none has the name |
| Roster.WithGuid | MessengerLibrary/MessengerClient.cs:1122 | the groups selected are exactly those with the given id |
| Roster.Ready | MessengerLibrary/MessengerClient.cs:345-349 | an operation may proceed exactly when the client is open and logged in; a closed client is `ObjectDisposedException`, a logged-out one `NotLoggedInException` |
| Sessions.Reject | MessengerLibrary/IMSessions.cs:104-105 | a throw before any change leaves the session and the client as they were, writes nothing and raises nothing |
| Sessions.MessageOptionToString | MessengerLibrary/IMSessions.cs:448-463 | each delivery option has a one-letter code |
| Sessions.MessageOptionCodesAreDistinct | MessengerLibrary/IMSessions.cs:448-463 | the codes of different options differ, and each code reads back as its option |
| Sessions.MessageRequest | MessengerLibrary/IMSessions.cs:163 | the `MSG` request carries the serialised message and the option's code, and has its id assigned when it is sent |
| Sessions.SendMessage | MessengerLibrary/IMSessions.cs:143-216 | a body over 1664 bytes is `ArgumentException`, a closed session `ObjectDisposedException`, no participants `NoParticpantsException`, each before anything is written; otherwise exactly one `MSG` with the message is written; sending never changes participants, connection or client state, and without acknowledgement it succeeds exactly when written |
| Sessions.AckModeOutcome | MessengerLibrary/IMSessions.cs:171-180 | in acknowledgement and data modes the first reply to the message decides: an `ACK` succeeds, a `NAK` is `MessageDeliveryFailedException`, a server error throws its code, and no reply is a timeout |
| Sessions.NakOnlyModeOutcome | MessengerLibrary/IMSessions.cs:182-212 | in NAK-only mode silence until the wait times out counts as delivered, a `NAK` or the connection closing is a delivery failure, and a server error throws its code |
| Sessions.NoAckModeNeverWaits | MessengerLibrary/IMSessions.cs:165-169 | without acknowledgement the message is written once and the call returns at once without registering a wait |
| Sessions.HandleJoiningUser | MessengerLibrary/IMSessions.cs:359-389 | a `JOI` from a stale connection is ignored; otherwise the user joins the participants at most once, and `UserJoined` is raised exactly when the participant list grew; no participant is lost |
| Sessions.HandlePartingUser | MessengerLibrary/IMSessions.cs:391-414 | a `BYE` from a stale connection is ignored; otherwise the user leaves the participants, nobody is added, and one `UserParted` event is raised |
| Sessions.JoinTwiceIsJoinOnce | MessengerLibrary/IMSessions.cs:374-376 | a second `JOI` for the same user, as the server sometimes sends after `IRO`, changes nothing and raises nothing |
| Sessions.JoinThenPart | MessengerLibrary/IMSessions.cs:359-414 | a new user joining and then parting leaves the session as it was, and the parting event names the user who joined |
| Sessions.HandleMessage | MessengerLibrary/IMSessions.cs:334-357 | a closed session ignores messages; otherwise a `MessageReceived` event is raised exactly when the payload parses, carrying the parsed message and the sender's cached user |
| Sessions.PartedEvents | MessengerLibrary/IMSessions.cs:257-268 | one `UserParted` event per participant, in participant order |
| Sessions.DisconnectInner | MessengerLibrary/IMSessions.cs:240-270 | an unconnected session is left alone; a connected one drops its connection and every participant, raising one `UserParted` per former participant in order |
| Sessions.DisconnectIsIdempotent | MessengerLibrary/IMSessions.cs:243-244 | disconnecting twice is disconnecting once, and the second time raises nothing |
| Sessions.Disconnect | MessengerLibrary/IMSessions.cs:218-238 | the public disconnect fails exactly on a closed session; when it succeeds the session is no longer connected |
| Sessions.ConnectionError | MessengerLibrary/IMSessions.cs:272-287 | an error from a connection other than the current one is ignored; from the current one it disconnects the session and empties the participants |
| Sessions.Close | MessengerLibrary/IMSessions.cs:416-441 | closing a closed session does nothing; otherwise the session disconnects, loses its participants, becomes closed, and raises `Closed` as its last event |
| Sessions.CloseIsIdempotent | MessengerLibrary/IMSessions.cs:424-425 | a second close changes nothing and raises nothing, and the first raises `Closed` only once |
| Sessions.Connected | MessengerLibrary/IMSessions.cs:289-316 | initialising a connection installs the newest connection with a fresh response tracker and changes nothing else |
| Sessions.Switch | MessengerLibrary/IMSessions.cs:107-119 | a connected session is left alone; otherwise the session ends up connected exactly when switchboard transfer, connect and `USR` all succeed, in which case the new connection is current and one `USR` was written; participants are untouched |
| Sessions.NotOnlineRule | MessengerLibrary/IMSessions.cs:128-133 | a principal-not-online server error becomes `UserNotOnlineException`; other failures pass unchanged |
| Sessions.NotOnlineIsCode217 | MessengerLibrary/IMSessions.cs:130-131 | exactly server error 217 is reported as the user not being online |
| Sessions.InviteUser | MessengerLibrary/IMSessions.cs:93-141 | a closed session is `ObjectDisposedException`, an existing participant `UserAlreadyExistsException`; on success the session is connected and the last command written is `CAL` for the user's login name; participants and client never change; a raw principal-not-online error never escapes |
| Sessions.InviteOfflineUser | MessengerLibrary/IMSessions.cs:124-131 | when the server answers `CAL` with error 217 the invitation fails with `UserNotOnlineException` |
| Sessions.RosterOf | MessengerLibrary/IMSessions.cs:64-66 | the roster rows are exactly the inbound `IRO` commands answering the request, in order |
| Sessions.RosterRows | MessengerLibrary/IMSessions.cs:64-70 | the rows taken end at the first row whose index equals its total; when no such row arrives the wait times out |
| Sessions.RowNames | MessengerLibrary/IMSessions.cs:76-79 | each roster row contributes its login name and nickname, in order |
| Sessions.JoinRow | MessengerLibrary/IMSessions.cs:78-79 | looking up a roster row's user fails exactly when the client is closed, and otherwise leaves the login name cached as that user |
| Sessions.AddRoster | MessengerLibrary/IMSessions.cs:76-81 | the roster loop fails only on a closed client with rows to add; otherwise one participant is appended per row after the existing ones, which are kept |
| Sessions.AddRosterUsers | MessengerLibrary/IMSessions.cs:76-81 | the participant added for row `i` is the user the client caches under that row's lower-cased login name |
| Sessions.AddRosterKeepsCache | MessengerLibrary/IMSessions.cs:76-81 | the roster loop never changes an existing cache entry |
| Sessions.ConnectByInvitation | MessengerLibrary/IMSessions.cs:52-91 | a failed connect is reported as is with nothing written; on success the session is connected through the new connection, exactly one `ANS` was written, the full roster answering it arrived and one participant was added per row; no events are raised and the roster invariant holds |
| Sync.RaiseAll | MessengerLibrary/MessengerClient.cs:1261-1262 | one event per argument, in order, all under the same name |
| Sync.RaiseSyncEvents | MessengerLibrary/MessengerClient.cs:1258-1295 | every collected event is raised exactly once, messages first and privacy changes last |
| Sync.SetMember | MessengerLibrary/MessengerClient.cs:1082-1094 | after an `LST` row a list holds the user exactly when the row names the list, keeps every other member, and is unchanged when it already agreed |
| Sync.UserOnLists | MessengerLibrary/MessengerClient.cs:1082-1094 | each of the five lists is updated by the row's list codes and nothing else changes |
| Sync.ListEvents | MessengerLibrary/MessengerClient.cs:1083-1094 | list events name the row's user, at most one per list, and none when every list already agreed with the row |
| Sync.PlaceTable | MessengerLibrary/MessengerClient.cs:1096-1110 | each group's membership is updated by itself; names and ids are kept |
| Sync.GroupEvents | MessengerLibrary/MessengerClient.cs:1097-1110 | group membership events name the row's user, at most one per group, and none when every group already agreed |
| Sync.SyncUserIdentity | MessengerLibrary/MessengerClient.cs:1060-1080 | the row's login name is cached as the current user, whose id and nickname become the row's; lists, groups and references are untouched; only a nickname event can be added |
| Sync.PlaceUser | MessengerLibrary/MessengerClient.cs:1082-1110 | afterwards the user is on exactly the lists the row names and in exactly the existing groups whose ids the row names |
| Sync.SyncUser | MessengerLibrary/MessengerClient.cs:1055-1116 | an `LST` row appends its user to the referenced users, caches it under the lower-cased login name and makes it the last user; groups are untouched |
| Sync.SyncUserPlacesUser | MessengerLibrary/MessengerClient.cs:1062-1110 | the synced user carries the row's id and nickname, is on exactly the named lists and in exactly the named groups |
| Sync.AddSyncGroup | MessengerLibrary/MessengerClient.cs:1124-1133 | an `LSG` row with an unknown id adds a group with that name and id and references it |
| Sync.RenameSyncGroup | MessengerLibrary/MessengerClient.cs:1134-1146 | an `LSG` row for a known group gives it the row's name and references it |
| Sync.SyncGroup | MessengerLibrary/MessengerClient.cs:1117-1150 | `SingleOrDefault` throws `InvalidOperationException` exactly when two groups share the row's id; otherwise the named group exists with the row's name and is referenced; users and lists are untouched |
| Sync.SyncUserProperty | MessengerLibrary/MessengerClient.cs:1152-1165 | an unknown key is `NotSupportedException`; a `BPR` row before any `LST` row dereferences a null last user; otherwise only the last user's property changes, to the row's value |
| Sync.SyncLocalNickname | MessengerLibrary/MessengerClient.cs:1167-1181 | an `MFN` row sets the local user's nickname to its value, changing nothing when it already had it |
| Sync.SyncLocalProperty | MessengerLibrary/MessengerClient.cs:1183-1196 | a `PRP` row with an unknown key is `NotSupportedException`; otherwise only the local user's property changes, to the row's value |
| Sync.SyncPrivacy | MessengerLibrary/MessengerClient.cs:1197-1210 | a privacy row with an unknown code is `NotSupportedException`; otherwise that setting reads the row's value and every other setting is unchanged |
| Sync.SyncMessage | MessengerLibrary/MessengerClient.cs:1211-1218 | a message row fails exactly when its payload does not parse, and otherwise adds one login message event and changes nothing else |
| Sync.SyncOtherRow | MessengerLibrary/MessengerClient.cs:1152-1222 | rows other than properties, privacy and messages change nothing |
| Sync.SyncRow | MessengerLibrary/MessengerClient.cs:1052-1226 | one row keeps the invariant and the cache, never removes a group, adds one referenced user exactly for `LST` and one referenced group exactly for `LSG` |
| Sync.SyncRows | MessengerLibrary/MessengerClient.cs:1052-1226 | the whole row loop keeps the invariant, only ever adds users and groups, and never removes a group |
| Sync.SyncRowsReferenceNamedUsers | MessengerLibrary/MessengerClient.cs:1052-1116 | every referenced user is named, through the cache, by some `LST` row |
| Sync.SyncRowsReferenceNamedGroups | MessengerLibrary/MessengerClient.cs:1117-1150 | every referenced group carries the id of some `LSG` row |
| Sync.Prune | MessengerLibrary/MessengerClient.cs:1229-1246 | pruning keeps exactly the elements that are referenced, without repeats, and changes nothing when nothing is stale |
| Sync.PruneLists | MessengerLibrary/MessengerClient.cs:1238-1243 | each list keeps exactly its referenced users; nothing else changes |
| Sync.PruneTable | MessengerLibrary/MessengerClient.cs:1245-1251 | each group keeps its name and id and loses only unreferenced members |
| Sync.Cleanup | MessengerLibrary/MessengerClient.cs:1228-1251 | cleanup keeps users, cache and references, and raises one group-removed event per group no row referenced |
| Sync.CleanupEvents | MessengerLibrary/MessengerClient.cs:1228-1251 | cleanup adds one removal event per stale group, and none at all when nothing is stale |
| Sync.CleanupKeepsReferenced | MessengerLibrary/MessengerClient.cs:1228-1251 | after cleanup a group survives exactly when referenced, a list member exactly when referenced, and a group member exactly when referenced |
| Sync.NothingStalePrunesNothing | MessengerLibrary/MessengerClient.cs:1228-1251 | when every group, list member and group member was referenced, pruning changes nothing |
| Sync.CleanupRemovesNothing | MessengerLibrary/MessengerClient.cs:1228-1251 | when nothing is stale the cleanup leaves the state exactly as it was |
| Sync.CleanupAsWritten | MessengerLibrary/MessengerClient.cs:1229-1251 | as written, removing from a collection while enumerating a lazy `Except` over it throws `InvalidOperationException`, so cleanup succeeds exactly when there was nothing to remove |
| Sync.StaleGroupBreaksCleanup | MessengerLibrary/MessengerClient.cs:1229-1231 | a logged-in client with one group that no `LSG` row mentions fails the cleanup as written, while the corrected cleanup removes the group |
| Sync.CleanupKeepsNames | MessengerLibrary/MessengerClient.cs:1228-1251 | cleanup keeps only users and groups the rows named |
| Sync.SyncKeepsNames | MessengerLibrary/MessengerClient.cs:1042-1256 | after the row loop and cleanup, every list member is named by some `LST` row and every group by some `LSG` row |
| Sync.ProcessSyncCommands | MessengerLibrary/MessengerClient.cs:1042-1256 | the sync as intended, with the corrected cleanup: it fails exactly when the row loop throws; otherwise the invariant holds, nothing cached is lost, and the lists and groups hold only what the rows named |
| Sync.ProcessSyncCommandsAsWritten | MessengerLibrary/MessengerClient.cs:1042-1256 | the sync as written fails exactly when the row loop throws or the cleanup finds something stale, which is `InvalidOperationException`; when it succeeds it agrees with the intended sync |
| Tracker.Increment | MessengerLibrary/MSNP.cs:187 | `Interlocked.Increment` adds one and wraps from the largest `int` to the smallest |
| Tracker.NextId | MessengerLibrary/MSNP.cs:187 | each request takes the next transaction id, which the tracker then remembers as its last |
| Tracker.FirstAnswer | MessengerLibrary/MSNP.cs:189-192 | the position found is the first inbound command carrying the id that is a server error or of an accepted type; none means no such command came |
| Tracker.GetResponse | MessengerLibrary/MSNP.cs:184-206 | the command is written once, carrying the freshly taken id |
| Tracker.GetOwnResponse | MessengerLibrary/MSNP.cs:208-216 | without an explicit list, the answer is a command of the request's own type with the request's id |
| Tracker.ResponseIsFirstAnswer | MessengerLibrary/MSNP.cs:184-206 | the response is the first command answering the id; when that is a server error the call throws instead; with no answer it times out; the three cases are exclusive and cover all inputs |
| Tracker.ServerErrorCarriesCode | MessengerLibrary/MSNP.cs:199-202 | a server error answering the request throws `ServerErrorException` with that error's code |
| Tracker.IdsCountFromOne | MessengerLibrary/MSNP.cs:176-187 | consecutive requests take consecutive ids |
| Tracker.FreshIdsIncrease | MessengerLibrary/MSNP.cs:176-187 | a new tracker numbers its requests 1, 2, 3 and so on, strictly increasing until the `int` range runs out |
| UserListOps.AddCommand | MessengerLibrary/UserLists.cs:46 | `ADC` names the list and the user's login name; only the forward list adds a nickname, the login name standing in for a missing one |
| UserListOps.AddUser | MessengerLibrary/UserLists.cs:29-64 | the pending list always refuses with `InvalidOperationException`, as does a list already holding the user; `ADC` is sent exactly when the client is ready and the user is absent; on the answer the user is appended to that list alone, takes the returned id only on the forward list, and one event is raised |
| UserListOps.RemoveCommand | MessengerLibrary/UserLists.cs:86 | `REM` names the list and, on the forward list, the user's id, elsewhere the login name |
| UserListOps.RemoveUser | MessengerLibrary/UserLists.cs:66-103 | the pending list always refuses; a user not on the list, or on the forward list while still in a group, is `InvalidOperationException`; `REM` is sent exactly when accepted; on the answer the user leaves that list alone, loses the id only on the forward list, and one event is raised |
| UserListOps.AddThenRemove | MessengerLibrary/UserLists.cs:29-103 | adding a user to a list and then removing them restores the lists |
| Users.ParseObject | MessengerLibrary/Users.cs:509-512 | parsing yields the empty display picture exactly for missing text |
| Users.ObjectToString | MessengerLibrary/Users.cs:504-507 | only the empty display picture has no text |
| Users.ObjectEquals | MessengerLibrary/Users.cs:484-502 | two display pictures are equal exactly when they are the same value |
| Users.ObjectRoundTrip | MessengerLibrary/Users.cs:479-512 | parsing and printing a display picture are inverse, and equality is equality of the text |
| Users.NewUser | MessengerLibrary/Users.cs:24-34 | a new user's nickname is the login name; offline, no picture, no capabilities, no id and no properties |
| Users.GetProperty | MessengerLibrary/Users.cs:47-53 | a property never set reads as empty text, a set one as its value |
| Users.SetProperty | MessengerLibrary/Users.cs:55-67 | after setting, the property reads the new value, every other property reads as before, an empty value removes the entry, and nothing else about the user changes |
| Users.SetPropertyLaws | MessengerLibrary/Users.cs:47-67 | setting a property to its current value changes no reading, and the second of two settings wins |
| Users.PropertyToString | MessengerLibrary/Users.cs:80-101 | each property has a three-letter code |
| Users.StringToProperty | MessengerLibrary/Users.cs:103-124 | exactly the seven known codes are recognised; anything else is `NotSupportedException` |
| Users.PropertyCodes | MessengerLibrary/Users.cs:80-124 | the property conversions are inverse to each other |
| Users.StatusToString | MessengerLibrary/Users.cs:126-149 | every status but offline has a three-letter code; offline is `NotSupportedException` |
| Users.StringToStatus | MessengerLibrary/Users.cs:151-175 | exactly the nine known codes, `FLN` among them, are recognised; anything else is `NotSupportedException` |
| Users.StatusCodes | MessengerLibrary/Users.cs:126-175 | the status conversions are inverse on every status that has a code, and `FLN` reads as offline |

## Left out

- The MD5 digest (RFC 1321) is an input to `Handshake.ChallengeResponse`; MD5 itself is not modelled.
- Text decoding: `Encoding.UTF8.GetString` is modelled as one character per byte, which agrees with the library for ASCII only. Encoding to UTF-8 is modelled in full.
- Handshake.BlockWord: `Encoding.Default.GetBytes` (HandshakeUtility.cs:53) is taken as UTF-8. On .NET Framework `Encoding.Default` is the ANSI code page, so the two agree for ASCII challenge text only; the exactness lemmas are stated for ASCII text.
- Text.Unescape: decodes only `%HH` escapes below `0x80`; multi-byte UTF-8 sequences are left escaped, so the escape round trip is stated for ASCII text.
- Sockets and streams: `SocketConnection`'s connect, `ConnectionStream` and the stream plumbing of `CommandReader`/`CommandWriter` are left out. The socket's answers to send and receive calls are parameters of `Connections.SendWith` and `Connections.Receive`.
- HTTP authentication in PassportAuthentication.cs is a network call; how the token request ends is an outcome input to the login, and the token itself is not modelled.
- Locks and concurrency: `AsyncReaderWriterLock`, the `SemaphoreSlim` of `CommandWriter` and `Interlocked` are left out. Each public operation is one atomic step; `Tracker.Increment` does write out the 32-bit wrap-around of `Interlocked.Increment`.
- The reactive pipeline (`Publish`, `Subscribe`, `Timeout`) is left out. The commands a subscription would see are an explicit inbound sequence, and a timeout is an explicit outcome.
- The weak-reference user cache and the clock-driven `PurgeUserCache` are left out; the cache is a strong map that is never purged.
- `MessageFormatter.SetRandomColor` is randomness and is left out; a colour is a plain red, green, blue record written as six hex digits, without `System.Drawing.Color`'s alpha or names.
- Formatting.ReadColor: a `CO` value that does not match exactly three two-character pairs goes through `ColorConverter`'s named-colour and integer parsing in `ColorTranslator.FromHtml`; the model leaves the colour unchanged for it.
- Formatting.WordPairs: `\w` is taken over ASCII (letters, digits, underscore); the non-ASCII letters and digits .NET's `\w` and `\d` also match are not.
- Text.ToLower: lowers ASCII letters only, while `String.ToLower` at MessengerClient.cs:716 lowers every cased letter under the current culture; culture data is not modelled.
- Text.ToLowerCaseInsensitive: states case-insensitivity for ASCII letters only, for the same reason.
- Text.ParseInteger: models the white space and sign `NumberStyles.Integer` allows; the trailing NUL characters .NET also tolerates and culture-specific sign strings are not modelled.
- Inbound handlers other than `HandleOut` (`HandleNewUsers`, `HandleOnlineUsers`, `HandleOfflineUsers`, `HandleRings`, `HandleBroadcasts`, `HandleChallenges`, `HandleNotifications`, `HandleMessages`) are left out; they are event plumbing around the transitions modelled here.
- `PingAsync`, `GetSwitchboard`, `CreateIMSession` and the `IMSessions` collection wrapper are left out; they are wire exchanges with no state beyond what `Sessions` models.
- The state a login leaves behind when it fails part-way is not modelled; a failed `ClientOps.Login` returns its failure only.
- ClientOps.LoginWaits: the `VER` wait failing with a server error is not told apart from a server that never answers; both are an empty list of rounds, a timeout.
- Sessions.Close: the session's user collection is set to null after closing (IMSessions.cs:429); the model leaves the participants empty instead.
- Event delegate invocation (`On*` methods) is left out; events are a returned sequence.
- The console shell (MessengerShell) is not part of this model.

## Findings

| source | as written | input that shows it | evidently intended | confidence | as-written member | corrected member |
|---|---|---|---|---|---|---|
| MessengerLibrary/IO.cs:97 | `TakeFromBuffer` copies the rest of the buffer into the new buffer at `dstOffset` instead of at 0, so `Buffer.BlockCopy` throws for any non-zero offset | buffer `[7]`, destination of two bytes, `dstOffset` 1, `count` 1 | the rest of the buffer starts the new buffer, and the payload lands at `dstOffset` | not executed | LineIO.TakeFromBufferAsWritten, LineIO.TakeFromBufferAsWrittenRejectsOffset | LineIO.TakeFromBuffer |
| MessengerLibrary/MessengerClient.cs:119-151 | the notification server's dispatch table has no `OUT` entry, so the server's `OUT` notice is skipped and `HandleOut` (line 301) never runs | the line `OUT OTH` | `OUT` is read as an `OutCommand` | not executed | Dispatch.OutNoticeIsSkipped | Dispatch.NsTableWithOut |
| MessengerLibrary/MessengerClient.cs:1229-1251 | the cleanup removes groups and users from the very lists a lazy `Except` is enumerating, which throws `InvalidOperationException` once anything is removed | a roster whose only group is named by no sync row | every unreferenced group and user is removed | not executed | Sync.CleanupAsWritten, Sync.StaleGroupBreaksCleanup, Sync.ProcessSyncCommandsAsWritten | Sync.Cleanup, Sync.ProcessSyncCommands |
| MessengerLibrary/Connections.cs:177 | the send loop subtracts `size` rather than `sent`, so it makes one socket call and reports success after a partial write | ten bytes to send, a socket that moves four per call | the loop sends until every byte is gone | not executed | Connections.Send, Connections.SendStopsAfterOnePartialWrite | Connections.SendAll |
| MessengerLibrary/MessengerClient.cs:226-232 | the sync gathers only `MSG`, `LST`, `LSG`, `PRP` and `BLP`/`GTC`, so the `BPR` rows that `ProcessSyncCommands` handles never reach it | a sync reply with an `LST` row followed by `BPR PHH 555` | `BPR` rows are gathered too and set the contact's phone numbers | not executed | ClientOps.GatherRowsAsWritten, ClientOps.PhoneRowIsDropped | ClientOps.GatherRows, ClientOps.PhoneRowIsDropped |

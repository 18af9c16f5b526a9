/** Format-then-parse laws of the MSNP command classes. Each class has its
    own writer and reader; where a class reads the same shape it writes,
    reading its own output gives the command back, and where the shapes
    differ on purpose, the difference is pinned down. */
module CommandLaws {

  import opened Wrappers
  import opened Failures
  import opened Helpers
  import opened Text
  import opened LineIO
  import opened Commands

  /** Space-separated words come back from `Split(' ')` when none contains
      a space. */
  lemma ArgsOfWords(ws: seq<string>)
    requires |ws| >= 1
    requires forall k :: 0 <= k < |ws| ==> ' ' !in ws[k]
    ensures Args(Words(ws)) == ws
  {
    SplitJoinChar(ws, ' ');
  }

  /** A number is one token free of the header's separators, and parses back. */
  lemma IntToken(t: int)
    requires IsInt32(t)
    ensures ' ' !in IntToString(t) && '=' !in IntToString(t) && ',' !in IntToString(t)
    ensures ParseInt32(IntToString(t)) == Ok(t)
  {
    ParseIntToString(t, MinInt32, MaxInt32);
    IntToStringExcludes(t, {' ', '=', ','});
  }

  /** A number's token reads back through `IntAt`. */
  lemma IntAtToken(ws: seq<string>, i: nat, t: int)
    requires IsInt32(t) && i < |ws| && ws[i] == IntToString(t)
    ensures IntAt(ws, i) == Ok(t)
  {
    IntToken(t);
  }

  /** An escaped value is one token free of the header's separators. */
  lemma EscapedToken(v: string)
    ensures ' ' !in Escape(v) && '=' !in Escape(v) && ',' !in Escape(v)
  {
    EscapeIsDelimiterFree(v);
  }

  /** `Write` hands each class to its own writer, with the transaction id
      formatted as `{0}` formats a nullable int. */
  lemma WriteDispatch(t: int, guid: string, list: string, who: string, gg: Option<string>)
    ensures Write(Command(Some(t), RemoveGroup(guid))) == Ok(WriteRemoveGroup(IntToString(t), guid))
    ensures Write(Command(None, RemoveContact(list, who, gg))) == Ok(WriteRemoveContact("", list, who, gg))
    ensures Write(Command(Some(t), Message(who, who, []))) == Err(NotImplemented)
  {
  }

  /** SYN: the time stamps come back; the user and group counts are only
      present in the server's reply, so reading the request gives zeros. */
  lemma SynchronizeRoundTrip(t: int, ts1: string, ts2: string)
    requires IsInt32(t) && ' ' !in ts1 && ' ' !in ts2
    ensures ReadSynchronize(Args(WriteSynchronize(IntToString(t), ts1, ts2).line))
            == Ok(Command(Some(t), Synchronize(ts1, ts2, 0, 0)))
  {
    IntToken(t);
    ArgsOfWords(["SYN", IntToString(t), ts1, ts2]);
  }

  /** The server's SYN reply carries the user and group counts in tokens 4
      and 5. */
  lemma SynchronizeReadsCounts(t: int, ts1: string, ts2: string, users: int, groups: int)
    requires IsInt32(t) && IsInt32(users) && IsInt32(groups) && ' ' !in ts1 && ' ' !in ts2
    ensures ReadSynchronize(Args(Words(["SYN", IntToString(t), ts1, ts2, IntToString(users), IntToString(groups)])))
            == Ok(Command(Some(t), Synchronize(ts1, ts2, users, groups)))
  {
    var ws := ["SYN", IntToString(t), ts1, ts2, IntToString(users), IntToString(groups)];
    SynchronizeReplyArgs(t, ts1, ts2, users, groups);
    IntAtToken(ws, 1, t);
    IntAtToken(ws, 4, users);
    IntAtToken(ws, 5, groups);
  }

  /** The tokens of the server's SYN reply split back apart. */
  lemma SynchronizeReplyArgs(t: int, ts1: string, ts2: string, users: int, groups: int)
    requires IsInt32(t) && IsInt32(users) && IsInt32(groups) && ' ' !in ts1 && ' ' !in ts2
    ensures var ws := ["SYN", IntToString(t), ts1, ts2, IntToString(users), IntToString(groups)];
      Args(Words(ws)) == ws
  {
    IntToken(t);
    IntToken(users);
    IntToken(groups);
    ArgsOfWords(["SYN", IntToString(t), ts1, ts2, IntToString(users), IntToString(groups)]);
  }

  /** USR on the notification server. */
  lemma AuthenticateRoundTrip(t: int, authType: string, status: string, argument: string)
    requires IsInt32(t) && ' ' !in authType && ' ' !in status && ' ' !in argument
    ensures ReadAuthenticate(Args(WriteAuthenticate(IntToString(t), authType, status, argument).line))
            == Ok(Command(Some(t), Authenticate(authType, status, argument)))
  {
    IntToken(t);
    ArgsOfWords(["USR", IntToString(t), authType, status, argument]);
  }

  /** PRP: the value is percent-encoded on the way out and decoded on the way
      in; the request always carries a transaction id, so the four-token
      shape is read. */
  lemma LocalPropertyRoundTrip(t: int, key: string, value: string)
    requires IsInt32(t) && ' ' !in key && IsAscii(value)
    ensures ReadLocalProperty(Args(WriteLocalProperty(IntToString(t), key, value).line))
            == Ok(Command(Some(t), LocalProperty(key, value)))
  {
    IntToken(t);
    EscapedToken(value);
    UnescapeEscape(value);
    ArgsOfWords(["PRP", IntToString(t), key, Escape(value)]);
  }

  /** SBP. */
  lemma ChangeUserPropertyRoundTrip(t: int, guid: string, key: string, value: string)
    requires IsInt32(t) && ' ' !in guid && ' ' !in key && IsAscii(value)
    ensures ReadChangeUserProperty(Args(WriteChangeUserProperty(IntToString(t), guid, key, value).line))
            == Ok(Command(Some(t), ChangeUserProperty(guid, key, value)))
  {
    IntToken(t);
    EscapedToken(value);
    UnescapeEscape(value);
    ArgsOfWords(["SBP", IntToString(t), guid, key, Escape(value)]);
  }

  /** RMG. */
  lemma RemoveGroupRoundTrip(t: int, guid: string)
    requires IsInt32(t) && ' ' !in guid
    ensures ReadRemoveGroup(Args(WriteRemoveGroup(IntToString(t), guid).line))
            == Ok(Command(Some(t), RemoveGroup(guid)))
  {
    IntToken(t);
    ArgsOfWords(["RMG", IntToString(t), guid]);
  }

  /** REM, with the group guid as a fifth token when there is one. */
  lemma RemoveContactRoundTrip(t: int, list: string, who: string, groupGuid: Option<string>)
    requires IsInt32(t) && ' ' !in list && ' ' !in who
    requires groupGuid.Some? ==> ' ' !in groupGuid.value
    ensures ReadRemoveContact(Args(WriteRemoveContact(IntToString(t), list, who, groupGuid).line))
            == Ok(Command(Some(t), RemoveContact(list, who, groupGuid)))
  {
    var ws := ["REM", IntToString(t), list, who] + Optional(groupGuid);
    assert Args(WriteRemoveContact(IntToString(t), list, who, groupGuid).line) == ws by {
      IntToken(t);
      assert forall k :: 0 <= k < |ws| ==> ' ' !in ws[k];
      ArgsOfWords(ws);
    }
    IntAtToken(ws, 1, t);
  }

  /** CHG with a display picture. Without one the line ends in an empty
      token, which reads back as an empty picture rather than none. */
  lemma ChangeStatusRoundTrip(t: int, status: string, caps: int, picture: string)
    requires IsInt32(t) && ' ' !in status && ' ' !in picture && 0 <= caps <= MaxUInt32
    ensures ReadChangeStatus(Args(WriteChangeStatus(IntToString(t), status, caps, Some(picture)).line))
            == Ok(Command(Some(t), ChangeStatus(status, caps, Some(picture))))
    ensures ReadChangeStatus(Args(WriteChangeStatus(IntToString(t), status, caps, None).line))
            == Ok(Command(Some(t), ChangeStatus(status, caps, Some(""))))
  {
    ChangeStatusRead(t, status, caps, picture);
    ChangeStatusRead(t, status, caps, "");
  }

  /** Reading the CHG tokens with a given last token. */
  lemma ChangeStatusRead(t: int, status: string, caps: int, picture: string)
    requires IsInt32(t) && ' ' !in status && ' ' !in picture && 0 <= caps <= MaxUInt32
    ensures ReadChangeStatus(Args(Words(["CHG", IntToString(t), status, IntToString(caps), picture])))
            == Ok(Command(Some(t), ChangeStatus(status, caps, Some(picture))))
  {
    var ws := ["CHG", IntToString(t), status, IntToString(caps), picture];
    assert Args(Words(ws)) == ws by {
      IntToken(t);
      IntToStringExcludes(caps, {' '});
      ArgsOfWords(ws);
    }
    assert UIntAt(ws, 3) == Ok(caps) by {
      ParseIntToString(caps, 0, MaxUInt32);
    }
    IntAtToken(ws, 1, t);
  }

  /** BLP and GTC as sent: key, transaction id, value. */
  lemma PrivacySettingRoundTrip(t: int, key: string, value: string)
    requires IsInt32(t) && ' ' !in key && ' ' !in value
    ensures ReadPrivacySetting(Args(WritePrivacySetting(IntToString(t), key, value).line))
            == Ok(Command(Some(t), PrivacySetting(key, value)))
  {
    IntToken(t);
    ArgsOfWords([key, IntToString(t), value]);
  }

  /** VER: the protocol names follow the transaction id. */
  lemma VersionRoundTrip(t: int, versions: seq<string>)
    requires IsInt32(t) && |versions| >= 1
    requires forall k :: 0 <= k < |versions| ==> ' ' !in versions[k]
    ensures ReadVersion(Args(WriteVersion(IntToString(t), versions).line))
            == Ok(Command(Some(t), Version(versions)))
  {
    IntToken(t);
    var ws := ["VER", IntToString(t)] + versions;
    assert forall k :: 0 <= k < |ws| ==> ' ' !in ws[k];
    ArgsOfWords(ws);
    assert Words(["VER", IntToString(t), Words(versions)]) == Words(ws) by {
      var prefix := ["VER", IntToString(t)];
      JoinOnAppend(prefix, versions, " ");
      assert prefix + [Words(versions)] == ["VER", IntToString(t), Words(versions)];
      JoinOnAppend(prefix, [Words(versions)], " ");
    }
    assert ws[2..] == versions;
  }

  // The classes below write another shape than the one they read: reading
  // their own output fails for lack of a token.

  /** IMS is written with its ON/OFF flag as token 2 but read with it as
      token 3. */
  lemma EnableIMShapes(t: int, on: bool)
    requires IsInt32(t)
    ensures ReadEnableIM(Args(WriteEnableIM(IntToString(t), on).line)) == Err(IndexOutOfRange)
  {
    IntToken(t);
    ArgsOfWords(["IMS", IntToString(t), if on then "ON" else "OFF"]);
  }

  /** ADG is read with the guid the server assigns, which the request lacks. */
  lemma AddGroupShapes(t: int, name: string)
    requires IsInt32(t)
    ensures ReadAddGroup(Args(WriteAddGroup(IntToString(t), name).line)) == Err(IndexOutOfRange)
  {
    IntToken(t);
    EscapedToken(name);
    ArgsOfWords(["ADG", IntToString(t), Escape(name)]);
  }

  /** XFR is read with the host the server names, which the request lacks. */
  lemma TransferShapes(t: int, serverType: string)
    requires IsInt32(t) && ' ' !in serverType
    ensures ReadTransfer(Args(WriteTransfer(IntToString(t), serverType).line)) == Err(IndexOutOfRange)
  {
    IntToken(t);
    ArgsOfWords(["XFR", IntToString(t), serverType]);
  }

  /** PNG is written bare; its reply QNG carries the seconds until the next
      ping. */
  lemma PingShapes(seconds: int)
    requires IsInt32(seconds)
    ensures ReadPing(Args(WritePing().line)) == Err(IndexOutOfRange)
    ensures ReadPing(Args(Words(["QNG", IntToString(seconds)]))) == Ok(Command(None, Ping(seconds)))
  {
    ArgsOfWords(["PNG"]);
    IntToken(seconds);
    ArgsOfWords(["QNG", IntToString(seconds)]);
  }

  /** MSG as sent: the length token is the payload's byte count, a command
      without a transaction id is sent with 0, and the payload follows the
      line unchanged. */
  lemma SendMessageHeader(trId: Option<int>, delivery: string, payload: seq<byte>)
    requires trId.Some? ==> IsInt32(trId.value)
    requires ' ' !in delivery && |payload| <= MaxInt32
    ensures var w := WriteSendMessage(trId, delivery, payload);
            var args := Args(w.line);
            && w.payload == payload
            && |args| == 4 && args[0] == "MSG" && args[2] == delivery
            && ParseInt32(args[1]) == Ok(trId.GetOr(0))
            && ParseInt32(args[3]) == Ok(|payload|)
  {
    IntToken(trId.GetOr(0));
    IntToken(|payload|);
    ArgsOfWords(["MSG", IntToString(trId.GetOr(0)), delivery, IntToString(|payload|)]);
  }

  /** QRY: the length token counts the UTF-8 bytes of the response. */
  lemma AcceptChallengeHeader(t: int, clientId: string, data: string)
    requires IsInt32(t) && ' ' !in clientId && |Utf8Encode(data)| <= MaxInt32
    ensures var w := WriteAcceptChallenge(IntToString(t), clientId, data);
            var args := Args(w.line);
            && w.payload == Utf8Encode(data)
            && |args| == 4 && args[2] == clientId && ParseInt32(args[3]) == Ok(|w.payload|)
  {
    IntToken(t);
    IntToken(|Utf8Encode(data)|);
    ArgsOfWords(["QRY", IntToString(t), clientId, IntToString(|Utf8Encode(data)|)]);
  }

  /** UUX: the length token counts the UTF-8 bytes of the personal message. */
  lemma SendBroadcastHeader(t: int, message: string)
    requires IsInt32(t) && |Utf8Encode(message)| <= MaxInt32
    ensures var w := WriteSendBroadcast(IntToString(t), message);
            var args := Args(w.line);
            && w.payload == Utf8Encode(message)
            && |args| == 3 && ParseInt32(args[2]) == Ok(|w.payload|)
  {
    IntToken(t);
    IntToken(|Utf8Encode(message)|);
    ArgsOfWords(["UUX", IntToString(t), IntToString(|Utf8Encode(message)|)]);
  }

  // ------------------------------------------------- key=value tokenizer

  lemma TokenizeSnoc(ts: seq<string>, token: string, firstOnly: bool)
    ensures Tokenize(ts + [token], firstOnly) ==
            (if Tokenize(ts, firstOnly).Ok? then AddToken(Tokenize(ts, firstOnly).value, token, firstOnly)
             else Tokenize(ts, firstOnly))
  {
    assert (ts + [token])[..|ts|] == ts;
  }

  /** A token without '=' is positional under either cut. */
  lemma PlainToken(f: Fields, token: string, firstOnly: bool)
    requires '=' !in token
    ensures AddToken(f, token, firstOnly) == Ok(f.(positional := f.positional + [token]))
  {
    AbsentSingle(token, '=');
    assert IndexOf(token, "=") == -1;
  }

  /** `key=value` with an '='-free key is a dictionary entry: under the
      first-'=' cut whatever the value, under the full cut when the value
      has no '=' either. */
  lemma KeyedToken(f: Fields, key: string, value: string, firstOnly: bool)
    requires '=' !in key && (!firstOnly ==> '=' !in value)
    requires Lookup(f.keyValues, key).None?
    ensures AddToken(f, key + "=" + value, firstOnly) == Ok(f.(keyValues := f.keyValues + [(key, value)]))
  {
    var token := key + "=" + value;
    if firstOnly {
      SeparatorFreeSingle(key, '=');
      IndexOfAfterPart(key, "=", value);
      assert token[..|key|] == key;
      assert token[|key| + 1..] == value;
    } else {
      SplitJoinChar([key, value], '=');
      assert JoinOn([key, value], "=") == token;
    }
  }

  /** Appends an optional `key=value` token and tracks the dictionary. */
  lemma OptionalKeyed(ts: seq<string>, f: Fields, key: string, value: Option<string>, firstOnly: bool)
    requires Tokenize(ts, firstOnly) == Ok(f)
    requires '=' !in key && (value.Some? && !firstOnly ==> '=' !in value.value)
    requires Lookup(f.keyValues, key).None?
    ensures Tokenize(ts + Keyed(key, value), firstOnly) ==
            Ok(f.(keyValues := f.keyValues + Pair(key, value)))
  {
    if value.Some? {
      TokenizeSnoc(ts, key + "=" + value.value, firstOnly);
      KeyedToken(f, key, value.value, firstOnly);
    } else {
      assert ts + Keyed(key, value) == ts;
      assert f.keyValues + [] == f.keyValues;
    }
  }

  /** Tokens without '=' are all positional. */
  lemma {:induction false} TokenizePlain(ts: seq<string>, f: Fields, plain: seq<string>, firstOnly: bool)
    requires Tokenize(ts, firstOnly) == Ok(f)
    requires forall k :: 0 <= k < |plain| ==> '=' !in plain[k]
    ensures Tokenize(ts + plain, firstOnly) == Ok(f.(positional := f.positional + plain))
    decreases |plain|
  {
    if |plain| == 0 {
      assert ts + plain == ts;
      assert f.positional + plain == f.positional;
    } else {
      var init := plain[..|plain| - 1];
      var last := plain[|plain| - 1];
      assert ts + plain == (ts + init) + [last];
      TokenizePlain(ts, f, init, firstOnly);
      TokenizeSnoc(ts + init, last, firstOnly);
      PlainToken(f.(positional := f.positional + init), last, firstOnly);
      assert f.positional + init + [last] == f.positional + plain;
    }
  }

  /** The dictionary entry an optional `key=value` token contributes. */
  function Pair(key: string, value: Option<string>): (kv: seq<(string, string)>)
    ensures Lookup(kv, key) == value
    ensures forall other :: other != key ==> Lookup(kv, other).None?
  {
    if value.Some? then [(key, value.value)] else []
  }

  lemma TokenizeContactN(s0: seq<string>, login: Option<string>)
    requires forall k :: 0 <= k < |s0| ==> '=' !in s0[k]
    requires login.Some? ==> '=' !in login.value
    ensures Tokenize(s0 + Keyed("N", login), false) == Ok(Fields(Pair("N", login), s0))
  {
    TokenizeAllPlain(s0, false);
    OptionalKeyed(s0, Fields([], s0), "N", login, false);
    assert [] + Pair("N", login) == Pair("N", login);
  }

  /** Tokens without '=' on their own are all positional. */
  lemma TokenizeAllPlain(plain: seq<string>, firstOnly: bool)
    requires forall k :: 0 <= k < |plain| ==> '=' !in plain[k]
    ensures Tokenize(plain, firstOnly) == Ok(Fields([], plain))
  {
    TokenizePlain([], Fields([], []), plain, firstOnly);
    assert [] + plain == plain;
  }

  lemma TokenizeContactC(s1: seq<string>, f: Fields, guid: Option<string>)
    requires Tokenize(s1, false) == Ok(f) && Lookup(f.keyValues, "C").None?
    requires guid.Some? ==> '=' !in guid.value
    ensures Tokenize(s1 + Keyed("C", guid), false) == Ok(f.(keyValues := f.keyValues + Pair("C", guid)))
  {
    OptionalKeyed(s1, f, "C", guid, false);
  }

  lemma LookupConcat(a: seq<(string, string)>, b: seq<(string, string)>, key: string)
    ensures Lookup(a + b, key) == if Lookup(a, key).Some? then Lookup(a, key) else Lookup(b, key)
    decreases |a|
  {
    if |a| == 0 {
      assert a + b == b;
    } else {
      assert (a + b)[0] == a[0];
      assert (a + b)[1..] == a[1..] + b;
      LookupConcat(a[1..], b, key);
    }
  }

  /** The ADC tokens split into the positional part and the dictionary. */
  lemma TokenizeAddContact(tr: string, list: string, login: Option<string>, guid: Option<string>,
                           nickToken: Option<string>, groupGuid: Option<string>)
    requires '=' !in tr && '=' !in list
    requires login.Some? ==> '=' !in login.value
    requires guid.Some? ==> '=' !in guid.value
    requires nickToken.Some? ==> '=' !in nickToken.value
    requires groupGuid.Some? ==> '=' !in groupGuid.value
    ensures Tokenize(AddContactTokens(tr, list, login, guid, nickToken, groupGuid), false).Ok?
    ensures var f := Tokenize(AddContactTokens(tr, list, login, guid, nickToken, groupGuid), false).value;
            && f.positional == ["ADC", tr, list] + Optional(groupGuid)
            && Lookup(f.keyValues, "N") == login
            && Lookup(f.keyValues, "C") == guid
            && Lookup(f.keyValues, "F") == nickToken
  {
    var s0 := ["ADC", tr, list];
    var s3 := s0 + Keyed("N", login) + Keyed("C", guid) + Keyed("F", nickToken);
    var f3 := Fields(Pair("N", login) + Pair("C", guid) + Pair("F", nickToken), s0);
    TokenizeContactKeys(s0, login, guid, nickToken);
    assert AddContactTokens(tr, list, login, guid, nickToken, groupGuid) == s3 + Optional(groupGuid);
    if groupGuid.Some? {
      assert s3 + Optional(groupGuid) == s3 + [groupGuid.value];
      TokenizeSnoc(s3, groupGuid.value, false);
      PlainToken(f3, groupGuid.value, false);
    } else {
      assert s3 + Optional(groupGuid) == s3;
    }
    ContactPairs(login, guid, nickToken);
  }

  /** The ADC tokens up to the optional group guid. */
  lemma TokenizeContactKeys(s0: seq<string>, login: Option<string>, guid: Option<string>, nickToken: Option<string>)
    requires forall k :: 0 <= k < |s0| ==> '=' !in s0[k]
    requires login.Some? ==> '=' !in login.value
    requires guid.Some? ==> '=' !in guid.value
    requires nickToken.Some? ==> '=' !in nickToken.value
    ensures Tokenize(s0 + Keyed("N", login) + Keyed("C", guid) + Keyed("F", nickToken), false)
            == Ok(Fields(Pair("N", login) + Pair("C", guid) + Pair("F", nickToken), s0))
  {
    var s2 := s0 + Keyed("N", login) + Keyed("C", guid);
    var kvC := Pair("N", login) + Pair("C", guid);
    TokenizeContactNC(s0, login, guid);
    NoNickYet(login, guid);
    OptionalKeyed(s2, Fields(kvC, s0), "F", nickToken, false);
  }

  /** The ADC tokens up to the optional nickname. */
  lemma TokenizeContactNC(s0: seq<string>, login: Option<string>, guid: Option<string>)
    requires forall k :: 0 <= k < |s0| ==> '=' !in s0[k]
    requires login.Some? ==> '=' !in login.value
    requires guid.Some? ==> '=' !in guid.value
    ensures Tokenize(s0 + Keyed("N", login) + Keyed("C", guid), false)
            == Ok(Fields(Pair("N", login) + Pair("C", guid), s0))
  {
    TokenizeContactN(s0, login);
    TokenizeContactC(s0 + Keyed("N", login), Fields(Pair("N", login), s0), guid);
  }

  lemma NoNickYet(login: Option<string>, guid: Option<string>)
    ensures Lookup(Pair("N", login) + Pair("C", guid), "F").None?
  {
    LookupConcat(Pair("N", login), Pair("C", guid), "F");
  }

  /** The ADC dictionary answers each of its three keys. */
  lemma ContactPairs(login: Option<string>, guid: Option<string>, nickToken: Option<string>)
    ensures var kv := Pair("N", login) + Pair("C", guid) + Pair("F", nickToken);
      Lookup(kv, "N") == login && Lookup(kv, "C") == guid && Lookup(kv, "F") == nickToken
  {
    var kvC := Pair("N", login) + Pair("C", guid);
    LookupConcat(Pair("N", login), Pair("C", guid), "N");
    LookupConcat(Pair("N", login), Pair("C", guid), "C");
    LookupConcat(kvC, Pair("F", nickToken), "N");
    LookupConcat(kvC, Pair("F", nickToken), "C");
    LookupConcat(kvC, Pair("F", nickToken), "F");
  }

  lemma AddContactTokensSpaceFree(tr: string, list: string, login: Option<string>, guid: Option<string>,
                                  nickToken: Option<string>, groupGuid: Option<string>)
    requires ' ' !in tr && ' ' !in list
    requires login.Some? ==> ' ' !in login.value
    requires guid.Some? ==> ' ' !in guid.value
    requires nickToken.Some? ==> ' ' !in nickToken.value
    requires groupGuid.Some? ==> ' ' !in groupGuid.value
    ensures var ws := AddContactTokens(tr, list, login, guid, nickToken, groupGuid);
            forall k :: 0 <= k < |ws| ==> ' ' !in ws[k]
  {
    var ws := AddContactTokens(tr, list, login, guid, nickToken, groupGuid);
    var s1 := ["ADC", tr, list] + Keyed("N", login);
    var s2 := s1 + Keyed("C", guid);
    var s3 := s2 + Keyed("F", nickToken);
    assert forall k :: 0 <= k < |s1| ==> ' ' !in s1[k];
    assert forall k :: 0 <= k < |s2| ==> ' ' !in s2[k];
    assert forall k :: 0 <= k < |s3| ==> ' ' !in s3[k];
    assert ws == s3 + Optional(groupGuid);
  }

  /** ADC: writing then reading recovers every field, provided no field
      contains a space or '=' and the nickname is ASCII (it is escaped). */
  lemma AddContactRoundTrip(t: int, list: string, login: Option<string>, guid: Option<string>,
                            nickname: Option<string>, groupGuid: Option<string>)
    requires IsInt32(t)
    requires ' ' !in list && '=' !in list
    requires login.Some? ==> ' ' !in login.value && '=' !in login.value
    requires guid.Some? ==> ' ' !in guid.value && '=' !in guid.value
    requires nickname.Some? ==> IsAscii(nickname.value)
    requires groupGuid.Some? ==> ' ' !in groupGuid.value && '=' !in groupGuid.value
    ensures ReadAddContact(Args(WriteAddContact(IntToString(t), list, login, guid, nickname, groupGuid).line))
            == Ok(Command(Some(t), AddContact(list, login, guid, nickname, groupGuid)))
  {
    var tr := IntToString(t);
    var nickToken := match nickname case Some(n) => Some(Escape(n)) case None => None;
    var ws := AddContactTokens(tr, list, login, guid, nickToken, groupGuid);
    AddContactArgs(t, list, login, guid, nickname, groupGuid);
    assert '=' !in tr by { IntToken(t); }
    if nickname.Some? {
      EscapedToken(nickname.value);
      UnescapeEscape(nickname.value);
    }
    ReadAddContactTokens(t, list, login, guid, nickToken, nickname, groupGuid);
  }

  /** Reading the ADC tokens back. */
  lemma ReadAddContactTokens(t: int, list: string, login: Option<string>, guid: Option<string>,
                             nickToken: Option<string>, nickname: Option<string>, groupGuid: Option<string>)
    requires IsInt32(t) && '=' !in IntToString(t) && '=' !in list
    requires login.Some? ==> '=' !in login.value
    requires guid.Some? ==> '=' !in guid.value
    requires nickToken.Some? ==> '=' !in nickToken.value
    requires groupGuid.Some? ==> '=' !in groupGuid.value
    requires match nickToken
             case Some(x) => nickname == Some(Unescape(x))
             case None => nickname.None?
    ensures ReadAddContact(AddContactTokens(IntToString(t), list, login, guid, nickToken, groupGuid))
            == Ok(Command(Some(t), AddContact(list, login, guid, nickname, groupGuid)))
  {
    var ws := AddContactTokens(IntToString(t), list, login, guid, nickToken, groupGuid);
    TokenizeAddContact(IntToString(t), list, login, guid, nickToken, groupGuid);
    var f := Tokenize(ws, false).value;
    IntAtToken(f.positional, 1, t);
    ReadAddContactOfFields(ws, f, t, list, login, guid, nickname, groupGuid);
  }

  /** The ADC line splits back into its tokens. */
  lemma AddContactArgs(t: int, list: string, login: Option<string>, guid: Option<string>,
                       nickname: Option<string>, groupGuid: Option<string>)
    requires IsInt32(t)
    requires ' ' !in list
    requires login.Some? ==> ' ' !in login.value
    requires guid.Some? ==> ' ' !in guid.value
    requires nickname.Some? ==> IsAscii(nickname.value)
    requires groupGuid.Some? ==> ' ' !in groupGuid.value
    ensures var nickToken := match nickname case Some(n) => Some(Escape(n)) case None => None;
            Args(WriteAddContact(IntToString(t), list, login, guid, nickname, groupGuid).line)
            == AddContactTokens(IntToString(t), list, login, guid, nickToken, groupGuid)
  {
    var tr := IntToString(t);
    var nickToken := match nickname case Some(n) => Some(Escape(n)) case None => None;
    var ws := AddContactTokens(tr, list, login, guid, nickToken, groupGuid);
    IntToken(t);
    if nickname.Some? { EscapedToken(nickname.value); }
    AddContactTokensSpaceFree(tr, list, login, guid, nickToken, groupGuid);
    ArgsOfWords(ws);
  }

  /** What `ReadAddContact` builds from tokenized fields. */
  lemma ReadAddContactOfFields(ws: seq<string>, f: Fields, t: int, list: string, login: Option<string>,
                               guid: Option<string>, nickname: Option<string>, groupGuid: Option<string>)
    requires Tokenize(ws, false) == Ok(f)
    requires IntAt(f.positional, 1) == Ok(t)
    requires f.positional == ["ADC", f.positional[1], list] + Optional(groupGuid)
    requires Lookup(f.keyValues, "N") == login && Lookup(f.keyValues, "C") == guid
    requires match Lookup(f.keyValues, "F")
             case Some(x) => nickname == Some(Unescape(x))
             case None => nickname.None?
    ensures ReadAddContact(ws) == Ok(Command(Some(t), AddContact(list, login, guid, nickname, groupGuid)))
  {
    assert f.positional[2] == list;
    if groupGuid.Some? {
      assert |f.positional| == 4 && f.positional[3] == groupGuid.value;
    } else {
      assert |f.positional| == 3;
    }
  }

  // ---------------------------------------------------------------- LST

  /** A contact-list line in the server's shape: `N=`, optional `F=` and
      `C=`, the list flags, a reserved token, then the group guids joined by
      commas when there are any. */
  function UserLine(login: string, nickToken: Option<string>, guid: Option<string>,
                    flags: int, groups: seq<string>): (ws: seq<string>)
    ensures |ws| >= 4 && ws[0] == "LST" && ws[1] == "N=" + login
  {
    ["LST"] + (UserKeys(login, nickToken, guid) + UserPlain(flags, groups))
  }

  function UserKeys(login: string, nickToken: Option<string>, guid: Option<string>): (ws: seq<string>)
    ensures 1 <= |ws| <= 3 && ws[0] == "N=" + login
  {
    ["N=" + login] + Keyed("F", nickToken) + Keyed("C", guid)
  }

  function UserPlain(flags: int, groups: seq<string>): (ws: seq<string>)
    ensures |ws| >= 2
  {
    [IntToString(flags), "1"] + (if |groups| > 0 then [JoinOn(groups, ",")] else [])
  }

  /** The `N=`, `F=` and `C=` tokens of a contact-list line. */
  lemma UserLineKeys(login: string, nickToken: Option<string>, guid: Option<string>)
    ensures Tokenize(UserKeys(login, nickToken, guid), true).Ok?
    ensures var f := Tokenize(UserKeys(login, nickToken, guid), true).value;
            && f.positional == []
            && Lookup(f.keyValues, "N") == Some(login)
            && Lookup(f.keyValues, "F") == nickToken
            && Lookup(f.keyValues, "C") == guid
  {
    var s1 := ["N=" + login] + Keyed("F", nickToken);
    var kv1 := [("N", login)] + Pair("F", nickToken);
    TokenizeLoginNick(login, nickToken);
    assert Lookup(kv1, "C").None? by {
      LookupConcat([("N", login)], Pair("F", nickToken), "C");
    }
    OptionalKeyed(s1, Fields(kv1, []), "C", guid, true);
    UserPairs(login, nickToken, guid);
  }

  /** The `N=` and optional `F=` tokens of a contact-list line. */
  lemma TokenizeLoginNick(login: string, nickToken: Option<string>)
    ensures Tokenize(["N=" + login] + Keyed("F", nickToken), true)
            == Ok(Fields([("N", login)] + Pair("F", nickToken), []))
  {
    var s0 := ["N=" + login];
    var kv0 := [("N", login)];
    assert Tokenize(s0, true) == Ok(Fields(kv0, [])) by {
      assert s0 == [] + ["N=" + login];
      assert "N=" + login == "N" + "=" + login;
      TokenizeSnoc([], "N=" + login, true);
      assert Tokenize([], true) == Ok(Fields([], []));
      KeyedToken(Fields([], []), "N", login, true);
      assert Fields([], []).keyValues + [("N", login)] == kv0;
    }
    OptionalKeyed(s0, Fields(kv0, []), "F", nickToken, true);
  }

  /** The LST dictionary answers each of its three keys. */
  lemma UserPairs(login: string, nickToken: Option<string>, guid: Option<string>)
    ensures var kv := [("N", login)] + Pair("F", nickToken) + Pair("C", guid);
      Lookup(kv, "N") == Some(login) && Lookup(kv, "F") == nickToken && Lookup(kv, "C") == guid
  {
    var kv0 := [("N", login)];
    var kv1 := kv0 + Pair("F", nickToken);
    LookupConcat(kv0, Pair("F", nickToken), "N");
    LookupConcat(kv0, Pair("F", nickToken), "F");
    LookupConcat(kv1, Pair("C", guid), "N");
    LookupConcat(kv1, Pair("C", guid), "F");
    LookupConcat(kv1, Pair("C", guid), "C");
  }

  lemma UserLineTokens(login: string, nickToken: Option<string>, guid: Option<string>,
                       flags: int, groups: seq<string>)
    requires IsInt32(flags)
    requires forall k :: 0 <= k < |groups| ==> '=' !in groups[k] && ',' !in groups[k]
    ensures Tokenize(UserLine(login, nickToken, guid, flags, groups)[1..], true).Ok?
    ensures var f := Tokenize(UserLine(login, nickToken, guid, flags, groups)[1..], true).value;
            && f.positional == UserPlain(flags, groups)
            && Lookup(f.keyValues, "N") == Some(login)
            && Lookup(f.keyValues, "F") == nickToken
            && Lookup(f.keyValues, "C") == guid
  {
    var keys := UserKeys(login, nickToken, guid);
    var plain := UserPlain(flags, groups);
    assert UserLine(login, nickToken, guid, flags, groups)[1..] == keys + plain;
    UserLineKeys(login, nickToken, guid);
    UserPlainIsPlain(flags, groups);
    TokenizePlain(keys, Tokenize(keys, true).value, plain, true);
  }

  /** No plain token of a contact-list line holds '='. */
  lemma UserPlainIsPlain(flags: int, groups: seq<string>)
    requires IsInt32(flags)
    requires forall k :: 0 <= k < |groups| ==> '=' !in groups[k] && ',' !in groups[k]
    ensures forall k :: 0 <= k < |UserPlain(flags, groups)| ==> '=' !in UserPlain(flags, groups)[k]
  {
    IntToken(flags);
    if |groups| > 0 {
      JoinOnExcludes(groups, ',', '=');
    }
  }

  lemma {:induction false} JoinOnExcludes(parts: seq<string>, sep: char, c: char)
    requires |parts| >= 1 && sep != c
    requires forall k :: 0 <= k < |parts| ==> c !in parts[k]
    ensures c !in JoinOn(parts, [sep])
    decreases |parts|
  {
    if |parts| > 1 {
      JoinOnExcludes(parts[1..], sep, c);
    }
  }

  lemma UserLineArgs(login: string, nickToken: Option<string>, guid: Option<string>,
                     flags: int, groups: seq<string>)
    requires ' ' !in login && IsInt32(flags)
    requires nickToken.Some? ==> ' ' !in nickToken.value
    requires guid.Some? ==> ' ' !in guid.value
    requires forall k :: 0 <= k < |groups| ==> ' ' !in groups[k]
    ensures Args(Words(UserLine(login, nickToken, guid, flags, groups))) == UserLine(login, nickToken, guid, flags, groups)
  {
    var ws := UserLine(login, nickToken, guid, flags, groups);
    var keys := UserKeys(login, nickToken, guid);
    var plain := UserPlain(flags, groups);
    UserKeysSpaceFree(login, nickToken, guid);
    UserPlainSpaceFree(flags, groups);
    assert ws == ["LST"] + (keys + plain);
    SpaceFreeConcat(["LST"], keys + plain);
    ArgsOfWords(ws);
  }

  /** Space-free tokens stay space-free when runs of them are joined. */
  lemma SpaceFreeConcat(a: seq<string>, b: seq<string>)
    requires forall k :: 0 <= k < |a| ==> ' ' !in a[k]
    requires forall k :: 0 <= k < |b| ==> ' ' !in b[k]
    ensures forall k :: 0 <= k < |a + b| ==> ' ' !in (a + b)[k]
  {
  }

  lemma UserKeysSpaceFree(login: string, nickToken: Option<string>, guid: Option<string>)
    requires ' ' !in login
    requires nickToken.Some? ==> ' ' !in nickToken.value
    requires guid.Some? ==> ' ' !in guid.value
    ensures forall k :: 0 <= k < |UserKeys(login, nickToken, guid)| ==> ' ' !in UserKeys(login, nickToken, guid)[k]
  {
    var s1 := ["N=" + login] + Keyed("F", nickToken);
    assert forall k :: 0 <= k < |s1| ==> ' ' !in s1[k];
  }

  lemma UserPlainSpaceFree(flags: int, groups: seq<string>)
    requires IsInt32(flags)
    requires forall k :: 0 <= k < |groups| ==> ' ' !in groups[k]
    ensures forall k :: 0 <= k < |UserPlain(flags, groups)| ==> ' ' !in UserPlain(flags, groups)[k]
  {
    IntToken(flags);
    if |groups| > 0 { JoinOnExcludes(groups, ',', ' '); }
  }

  /** Reading a contact-list line gives back the login name, the unescaped
      nickname, the guid, the lists named by the flag bits and the groups. */
  lemma UserLineRead(login: string, nickname: Option<string>, guid: Option<string>,
                     flags: int, groups: seq<string>)
    requires ' ' !in login && IsInt32(flags)
    requires nickname.Some? ==> IsAscii(nickname.value)
    requires guid.Some? ==> ' ' !in guid.value
    requires forall k :: 0 <= k < |groups| ==> ' ' !in groups[k] && '=' !in groups[k] && ',' !in groups[k]
    ensures var nickToken := match nickname case Some(n) => Some(Escape(n)) case None => None;
            ReadUser(Args(Words(UserLine(login, nickToken, guid, flags, groups))))
            == Ok(Command(None, User(login, nickname, guid, ListsOf(flags), groups)))
  {
    var nickToken := match nickname case Some(n) => Some(Escape(n)) case None => None;
    if nickname.Some? {
      EscapedToken(nickname.value);
      UnescapeEscape(nickname.value);
    }
    var ws := UserLine(login, nickToken, guid, flags, groups);
    UserLineArgs(login, nickToken, guid, flags, groups);
    UserLineTokens(login, nickToken, guid, flags, groups);
    var fields := Tokenize(ws[1..], true).value;
    UserPlainRead(flags, groups);
    ReadUserOfFields(ws, fields);
  }

  /** The plain tokens of a contact-list line give back the flags and the
      groups. */
  lemma UserPlainRead(flags: int, groups: seq<string>)
    requires IsInt32(flags)
    requires forall k :: 0 <= k < |groups| ==> ',' !in groups[k]
    ensures var p := UserPlain(flags, groups);
      IntAt(p, 0) == Ok(flags) && (if |p| > 2 then SplitChar(p[2], ',') else []) == groups
  {
    IntToken(flags);
    if |groups| > 0 {
      SplitJoinChar(groups, ',');
    }
  }

  /** `ReadUser` over tokens whose `N=` key and flags are present. */
  lemma ReadUserOfFields(ws: seq<string>, fields: Fields)
    requires |ws| >= 1 && Tokenize(ws[1..], true) == Ok(fields)
    requires Lookup(fields.keyValues, "N").Some? && IntAt(fields.positional, 0).Ok?
    ensures var nick := match Lookup(fields.keyValues, "F") case Some(f) => Some(Unescape(f)) case None => None;
      var p := fields.positional;
      ReadUser(ws) == Ok(Command(None, User(Lookup(fields.keyValues, "N").value, nick, Lookup(fields.keyValues, "C"),
                                            ListsOf(IntAt(p, 0).value), if |p| > 2 then SplitChar(p[2], ',') else [])))
  {
  }

  // ------------------------------------------------------------- list bits

  /** A list is named exactly when its bit is set in the flags, and the
      names keep the order FL, AL, BL, RL, PL. */
  lemma ListsOfBits(flags: int)
    ensures ListsOf(flags) ==
            (if HasBit(flags, 1) then ["FL"] else []) + ((if HasBit(flags, 2) then ["AL"] else [])
            + ((if HasBit(flags, 4) then ["BL"] else []) + ((if HasBit(flags, 8) then ["RL"] else [])
            + (if HasBit(flags, 16) then ["PL"] else []))))
  {
    var b := ListBits;
    var p := (if HasBit(flags, 16) then ["PL"] else []);
    assert FilterBits(flags, b[4..]) == p by {
      assert b[4..][0] == (16, "PL") && b[4..][1..] == [];
      assert p + [] == p;
    }
    var r := (if HasBit(flags, 8) then ["RL"] else []) + p;
    assert FilterBits(flags, b[3..]) == r by {
      assert b[3..][0] == (8, "RL") && b[3..][1..] == b[4..];
    }
    var bl := (if HasBit(flags, 4) then ["BL"] else []) + r;
    assert FilterBits(flags, b[2..]) == bl by {
      assert b[2..][0] == (4, "BL") && b[2..][1..] == b[3..];
    }
    var al := (if HasBit(flags, 2) then ["AL"] else []) + bl;
    assert FilterBits(flags, b[1..]) == al by {
      assert b[1..][0] == (2, "AL") && b[1..][1..] == b[2..];
    }
    assert FilterBits(flags, b) == (if HasBit(flags, 1) then ["FL"] else []) + al;
  }

  /** The sample lines' flags: 3 is forward and allow, 5 forward and block,
      and -1 (all 32 bits set) every list. */
  lemma ListsOfSamples()
    ensures ListsOf(3) == ["FL", "AL"]
    ensures ListsOf(5) == ["FL", "BL"]
    ensures ListsOf(-1) == ["FL", "AL", "BL", "RL", "PL"]
  {
    ListsOfBits(3);
    ListsOfBits(5);
    ListsOfBits(-1);
  }
}

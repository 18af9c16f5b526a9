/** `CommandReader` (MSNP.cs): the per-connection table from a line's first
    token to its command class, the fallback that reads a numeric first
    token as a server error, and the read loop that skips unknown lines
    and hands each header (and payload) to its class's reader. */
module Dispatch {

  import opened Wrappers
  import opened Failures
  import opened Helpers
  import opened Text
  import opened LineIO
  import opened Commands

  /** `line.Split(new char[] {' '}, 2)[0]`: the text before the first space. */
  function Identifier(line: string): (id: string)
    ensures ' ' !in id
    ensures |id| <= |line| && id == line[..|id|]
    ensures id == line <==> ' ' !in line
    ensures |id| < |line| ==> line[|id|] == ' '
  {
    var i := IndexOf(line, " ");
    if i < 0 then
      assert forall j :: 0 <= j < |line| ==> line[j] != ' ' by {
        forall j | 0 <= j < |line| ensures line[j] != ' ' {
          assert !OccursAt(line, " ", j);
        }
      }
      line
    else
      assert OccursAt(line, " ", i);
      assert forall j :: 0 <= j < i ==> line[j] != ' ' by {
        forall j | 0 <= j < i ensures line[j] != ' ' {
          assert !OccursAt(line, " ", j);
        }
      }
      line[..i]
  }

  /** A header written as words starts with its first word. */
  lemma IdentifierOfWords(id: string, rest: string)
    requires ' ' !in id
    ensures Identifier(id + " " + rest) == id
    ensures Identifier(id) == id
  {
    SeparatorFreeSingle(id, ' ');
    IndexOfAfterPart(id, " ", rest);
    assert (id + " " + rest)[..|id|] == id;
  }

  /** A dispatch table: identifiers and the class each one selects. */
  type Table = seq<(string, CommandType)>

  /** The notification server's table (`MessengerClient.LoginAsync`), in
      the library's order, written as four runs of entries. */
  const NsTable: Table := NsEntries1 + NsEntries2 + NsEntries3 + NsEntries4

  const NsEntries1: Table := [
    ("VER", VersionCommand), ("CVR", ClientVersionCommand), ("USR", AuthenticateCommand),
    ("XFR", TransferCommand), ("SYN", SynchronizeCommand), ("SBS", SbsCommand),
    ("MSG", MessageCommand), ("LST", UserCommand)
  ]

  const NsEntries2: Table := [
    ("LSG", GroupCommand), ("BPR", UserPropertyCommand), ("BLP", PrivacySettingCommand),
    ("GTC", PrivacySettingCommand), ("CHG", ChangeStatusCommand), ("UBX", BroadcastCommand),
    ("PRP", LocalPropertyCommand), ("NLN", UserOnlineCommand)
  ]

  const NsEntries3: Table := [
    ("ILN", InitialUserOnlineCommand), ("FLN", UserOfflineCommand), ("UUX", SendBroadcastCommand),
    ("NOT", NotificationCommand), ("QNG", PingCommand), ("CHL", ChallengeCommand),
    ("ADC", AddContactCommand), ("REM", RemoveContactCommand)
  ]

  const NsEntries4: Table := [
    ("ADG", AddGroupCommand), ("RMG", RemoveGroupCommand), ("REG", RenameGroupCommand),
    ("QRY", AcceptChallengeCommand), ("RNG", RingCommand), ("SBP", ChangeUserPropertyCommand),
    ("IMS", EnableIMCommand)
  ]

  /** The notification server's table with the `OUT` entry its `HandleOut`
      subscription needs. */
  const NsTableWithOut: Table := NsTable + [("OUT", OutCommand)]

  /** The switchboard's table (`IMSession` connect). */
  const SbTable: Table := [
    ("MSG", MessageCommand), ("ANS", AnswerCommand), ("CAL", CallUserCommand),
    ("USR", AuthenticateIMCommand), ("IRO", UserRosterCommand), ("JOI", UserJoinedCommand),
    ("BYE", UserPartedCommand), ("ACK", AcknowledgementCommand), ("NAK", NegativeAcknowledgementCommand)
  ]

  /** `commandTypes.FirstOrDefault(t => t.Key == identifier).Value`. */
  function FindType(table: Table, id: string): (t: Option<CommandType>)
    ensures t.None? <==> forall k :: 0 <= k < |table| ==> table[k].0 != id
    ensures t.Some? ==> exists k :: 0 <= k < |table| && table[k] == (id, t.value)
    decreases |table|
  {
    if |table| == 0 then None
    else if table[0].0 == id then Some(table[0].1)
    else
      var t := FindType(table[1..], id);
      assert forall k :: 1 <= k < |table| ==> table[k] == table[1..][k - 1];
      t
  }

  /** The class for a line: the table's, else `ServerErrorCommand` when the
      identifier is a 32-bit integer, else none (the line is skipped). */
  function Classify(table: Table, line: string): (t: Option<CommandType>)
    ensures FindType(table, Identifier(line)).Some? ==> t == FindType(table, Identifier(line))
    ensures FindType(table, Identifier(line)).None? ==>
      (t == Some(ServerErrorCommand) <==> ParseInt32(Identifier(line)).Ok?)
    ensures FindType(table, Identifier(line)).None? ==> (t.None? <==> ParseInt32(Identifier(line)).Err?)
  {
    var id := Identifier(line);
    match FindType(table, id)
    case Some(t) => Some(t)
    case None => if ParseInt32(id).Ok? then Some(ServerErrorCommand) else None
  }

  /** A numeric reply such as `911 5` is a server error carrying the code
      and the transaction id it answers. */
  lemma ServerErrorLine(table: Table, code: int, trId: int)
    requires IsInt32(code) && IsInt32(trId)
    requires forall k :: 0 <= k < |table| ==> table[k].0 != IntToString(code)
    ensures Classify(table, IntToString(code) + " " + IntToString(trId)) == Some(ServerErrorCommand)
    ensures ReadServerError(Args(Words([IntToString(code), IntToString(trId)])))
            == Ok(Command(Some(trId), ServerError(code)))
  {
    ParseIntToString(code, MinInt32, MaxInt32);
    ParseIntToString(trId, MinInt32, MaxInt32);
    IntToStringExcludes(code, {' '});
    IntToStringExcludes(trId, {' '});
    IdentifierOfWords(IntToString(code), IntToString(trId));
    SplitJoinChar([IntToString(code), IntToString(trId)], ' ');
  }

  /** The server's `OUT` notice (its last line before it closes the
      connection) has no entry in the table as written, so the reader skips
      it; with the entry it is read as an `OutCommand`. */
  lemma OutNoticeIsSkipped(reason: string)
    ensures Classify(NsTable, "OUT " + reason) == None
    ensures Classify(NsTableWithOut, "OUT " + reason) == Some(OutCommand)
  {
    IdentifierOfWords("OUT", reason);
    assert "OUT " + reason == "OUT" + " " + reason;
    assert FindType(NsTable, "OUT").None? by {
      NsTableHasNoO();
      NoIdentifierStartsWith(NsTable, "OUT");
    }
    assert ParseInt32("OUT").Err? by {
      ParseIntegerRejectsLetter("OUT", MinInt32, MaxInt32);
    }
    assert FindType(NsTableWithOut, "OUT") == Some(OutCommand) by {
      FindTypeAppend(NsTable, [("OUT", OutCommand)], "OUT");
    }
  }

  /** No identifier of the table starts with `c`. */
  ghost predicate NoneStartWith(table: Table, c: char) {
    forall k :: 0 <= k < |table| ==> |table[k].0| == 0 || table[k].0[0] != c
  }

  /** No identifier of the notification server's table starts with `O`. */
  lemma NsTableHasNoO()
    ensures NoneStartWith(NsTable, 'O')
  {
    assert NoneStartWith(NsEntries1, 'O') by {
      forall k | 0 <= k < |NsEntries1| ensures NsEntries1[k].0[0] != 'O' { }
    }
    assert NoneStartWith(NsEntries2, 'O') by {
      forall k | 0 <= k < |NsEntries2| ensures NsEntries2[k].0[0] != 'O' { }
    }
    assert NoneStartWith(NsEntries3, 'O') by {
      forall k | 0 <= k < |NsEntries3| ensures NsEntries3[k].0[0] != 'O' { }
    }
    assert NoneStartWith(NsEntries4, 'O') by {
      forall k | 0 <= k < |NsEntries4| ensures NsEntries4[k].0[0] != 'O' { }
    }
  }

  /** An identifier is absent from a table none of whose identifiers
      starts with the identifier's first letter. */
  lemma NoIdentifierStartsWith(table: Table, id: string)
    requires |id| > 0 && NoneStartWith(table, id[0])
    ensures FindType(table, id).None?
  {
    forall k | 0 <= k < |table| ensures table[k].0 != id {
      if |table[k].0| > 0 {
        assert table[k].0[0] != id[0];
      }
    }
  }

  /** An identifier absent from a table is looked up in what is appended. */
  lemma FindTypeAppend(table: Table, more: Table, id: string)
    requires FindType(table, id).None?
    ensures FindType(table + more, id) == FindType(more, id)
    decreases |table|
  {
    if |table| > 0 {
      assert (table + more)[1..] == table[1..] + more;
      FindTypeAppend(table[1..], more, id);
    } else {
      assert table + more == more;
    }
  }

  /** `new byte[n]`. */
  function Zeros(n: nat): (bs: seq<byte>)
    ensures |bs| == n && forall k :: 0 <= k < n ==> bs[k] == 0
  {
    seq(n, _ => 0)
  }

  /** The class's `ReadAsync` on a classified header, followed by its payload
      when it has one. */
  method ReadBody(t: CommandType, header: string, r: LineReader, chunks: seq<seq<byte>>)
    returns (res: Result<Command, Failure>, next: LineReader, consumed: nat)
    requires forall k :: 0 <= k < |chunks| ==> |chunks[k]| <= ReadSize
    ensures consumed <= |chunks|
    ensures BodyRead(t, header, res)
  {
    match Read(t, header)
    case Err(e) =>
      return Err(e), r, 0;
    case Ok(Complete(c)) =>
      return Ok(c), r, 0;
    case Ok(NeedsPayload(n, partial)) =>
      var o := ReadAsync(r, Zeros(n), 0, n, chunks);
      assert o.Ok? && |o.value.dst| == n;
      return Ok(WithPayload(partial, o.value.dst)), o.value.reader, o.value.consumed;
  }

  /** `res` is what class `t` reads from `header`: the header's command, or
      the header's command completed by a payload of the announced length. */
  ghost predicate BodyRead(t: CommandType, header: string, res: Result<Command, Failure>) {
    match Read(t, header)
    case Err(e) => res == Err(e)
    case Ok(Complete(c)) => res == Ok(c)
    case Ok(NeedsPayload(n, partial)) =>
      exists payload: seq<byte> | |payload| == n :: res == Ok(WithPayload(partial, payload))
  }

  /** Where `ReadLine` over the unread chunks stopped at the stream's end,
      the whole sequence stopped there too. */
  lemma EndOfStreamAt(chunks: seq<seq<byte>>, consumed: nat, used: nat)
    requires consumed <= |chunks| && used <= |chunks| - consumed
    requires used == |chunks[consumed..]| || (used > 0 && |chunks[consumed..][used - 1]| == 0)
    ensures consumed + used == |chunks| || (consumed + used > 0 && |chunks[consumed + used - 1]| == 0)
  {
  }

  /** `ReadCommandAsync`: read lines until one has a class; a null line (the
      stream ended) fails `Split` with a null reference. The class reads
      the header and, for the payload classes, the payload, whose
      `ReadAsync` answer is ignored: a payload cut short by the end of the
      stream stays zero-filled. */
  method ReadCommand(table: Table, r: LineReader, chunks: seq<seq<byte>>)
    returns (res: Result<Command, Failure>, ended: bool, header: string, skipped: seq<string>, next: LineReader, consumed: nat)
    requires Valid(r)
    requires forall k :: 0 <= k < |chunks| ==> |chunks[k]| <= ReadSize
    ensures consumed <= |chunks|
    ensures forall k :: 0 <= k < |skipped| ==> Classify(table, skipped[k]).None?
    ensures ended ==> res == Err(NullReference)
    ensures ended ==> consumed == |chunks| || (consumed > 0 && |chunks[consumed - 1]| == 0)
    ensures !ended ==> Classify(table, header).Some? && BodyRead(Classify(table, header).value, header, res)
  {
    var current := r;
    var used2: nat;
    consumed := 0;
    skipped := [];
    header := "";
    while true
      invariant Valid(current) && consumed <= |chunks|
      invariant forall k :: 0 <= k < |skipped| ==> Classify(table, skipped[k]).None?
      decreases |chunks| - consumed, |current.buffer|
    {
      var rest := chunks[consumed..];
      var line, after, used := ReadLine(current, rest);
      if line.None? {
        EndOfStreamAt(chunks, consumed, used);
        return Err(NullReference), true, header, skipped, after, consumed + used;
      }
      var text := LineText(line.value);
      match Classify(table, text)
      case None =>
        if used == 0 {
          assert rest[..0] == [];
          assert current.buffer + Flatten(rest[..used]) == current.buffer;
          assert |after.buffer| < |current.buffer|;
        }
        skipped := skipped + [text];
        current := after;
        consumed := consumed + used;
      case Some(t) =>
        header := text;
        var c;
        c, next, used2 := ReadBody(t, text, after, chunks[consumed + used..]);
        return c, false, header, skipped, next, consumed + used + used2;
    }
  }
}

/** `Message` (Messages.cs): a MIME-like envelope of `key: value` header
    lines, a blank line, and an opaque body. Headers are a dictionary whose
    enumeration order is the order the lines are written in. */
module Messages {

  import opened Wrappers
  import opened Failures
  import opened Helpers
  import opened Text
  import opened Dict

  type Headers = Dict<string, string>

  datatype Message = Message(headers: Headers, body: seq<byte>)

  const PlainText: string := "text/plain; charset=UTF-8"
  const ContentTypeKey: string := "Content-Type"
  const HeaderSeparator: string := ": "
  /** `Environment.NewLine`, which is CR LF on Windows, the platform the
      library targets. */
  const LineBreak: string := "\r\n"
  /** The blank line that ends the headers, as bytes. */
  const HeaderEnd: seq<byte> := [13, 10, 13, 10]

  /** `new Message()`: a MIME version, plain UTF-8 text, no body. */
  const NewMessage: Message := Message([("MIME-Version", "1.0"), (ContentTypeKey, PlainText)], [])

  /** The `ContentType` getter: the dictionary's indexer, so a message
      without the header throws `KeyNotFoundException`. */
  function ContentType(m: Message): (r: Result<string, Failure>)
    ensures r.Ok? <==> ContainsKey(m.headers, ContentTypeKey)
    ensures r.Ok? ==> Get(m.headers, ContentTypeKey) == Some(r.value)
    ensures r.Err? ==> r.error == KeyNotFound
  {
    Index(m.headers, ContentTypeKey)
  }

  /** The `ContentType` setter. */
  function WithContentType(m: Message, value: string): (r: Message)
    ensures ContentType(r) == Ok(value)
    ensures r.body == m.body
    ensures forall k :: k != ContentTypeKey ==> Get(r.headers, k) == Get(m.headers, k)
  {
    m.(headers := Set(m.headers, ContentTypeKey, value))
  }

  /** One header line: the text before the first `": "` is the key and the
      text up to the second `": "` the value; a line without `": "` has no
      second part and indexing it throws. */
  function ParseHeaderLine(line: string): (r: Result<(string, string), Failure>)
    ensures r.Err? <==> IndexOf(line, HeaderSeparator) < 0
    ensures r.Err? ==> r.error == IndexOutOfRange
    ensures r.Ok? ==> r.value.0 == SplitOn(line, HeaderSeparator)[0] && r.value.1 == SplitOn(line, HeaderSeparator)[1]
  {
    var parts := SplitOn(line, HeaderSeparator);
    if |parts| < 2 then Err(IndexOutOfRange) else Ok((parts[0], parts[1]))
  }

  /** `new Message(bytes)`: the bytes up to the first blank line are the
      headers, one per CR LF separated line, and everything after it is the
      body. No blank line throws `InvalidOperationException`; a line
      without `": "` throws `IndexOutOfRangeException`; a repeated key
      throws `ArgumentException`. */
  function Parse(bytes: seq<byte>): (r: Result<Message, Failure>)
    ensures r.Err? && r.error == InvalidOperation <==> Absent(bytes, HeaderEnd)
    ensures r.Ok? ==> exists head :: bytes == head + HeaderEnd + r.value.body && Absent(head, HeaderEnd)
    ensures r.Ok? ==> DistinctKeys(r.value.headers)
    ensures r.Err? ==> r.error == InvalidOperation || r.error == IndexOutOfRange || r.error == Argument
  {
    var split := Split(bytes, HeaderEnd);
    if !split.found then Err(InvalidOperation)
    else
      var lines := SplitOn(BytesToText(split.out1), LineBreak);
      var headers := ToDictionary([], lines, ParseHeaderLine);
      ToDictionaryFailure(lines);
      ToDictionaryDistinct([], lines, ParseHeaderLine);
      if headers.Err? then Err(headers.error)
      else Ok(Message(headers.value, split.out2))
  }

  /** Reading header lines fails only with the two line-level failures. */
  lemma {:induction false} ToDictionaryFailure(lines: seq<string>)
    ensures ToDictionary([], lines, ParseHeaderLine).Err? ==>
      (ToDictionary([], lines, ParseHeaderLine).error == IndexOutOfRange
       || ToDictionary([], lines, ParseHeaderLine).error == Argument)
  {
    ToDictionaryFailureFrom([], lines);
  }

  lemma {:induction false} ToDictionaryFailureFrom(d: Headers, lines: seq<string>)
    ensures ToDictionary(d, lines, ParseHeaderLine).Err? ==>
      (ToDictionary(d, lines, ParseHeaderLine).error == IndexOutOfRange
       || ToDictionary(d, lines, ParseHeaderLine).error == Argument)
    decreases |lines|
  {
    if |lines| > 0 {
      match ParseHeaderLine(lines[0])
      case Err(_) =>
      case Ok(e) =>
        match Add(d, e.0, e.1)
        case Err(_) =>
        case Ok(d2) => ToDictionaryFailureFrom(d2, lines[1..]);
    }
  }

  /** The header block `GetBytes` builds: `key: value` and a line break per
      header, in enumeration order. */
  function HeaderBlock(headers: Headers): (s: string)
    decreases |headers|
  {
    if |headers| == 0 then ""
    else headers[0].0 + HeaderSeparator + headers[0].1 + LineBreak + HeaderBlock(headers[1..])
  }

  /** `GetBytes`: the header block, a blank line, then the body. */
  function GetBytes(m: Message): (bs: seq<byte>)
    ensures bs == Utf8Encode(HeaderBlock(m.headers)) + [13, 10] + m.body
  {
    Utf8EncodeAppend(HeaderBlock(m.headers), LineBreak);
    assert Utf8Encode(LineBreak) == [13, 10];
    Utf8Encode(HeaderBlock(m.headers) + LineBreak) + m.body
  }

  /** The header line of one entry. */
  function LineOf(h: (string, string)): string {
    h.0 + HeaderSeparator + h.1
  }

  /** The header lines, one per entry. */
  function LinesOf(headers: Headers): (lines: seq<string>)
    ensures |lines| == |headers|
    ensures forall i :: 0 <= i < |headers| ==> lines[i] == LineOf(headers[i])
  {
    seq(|headers|, i requires 0 <= i < |headers| => LineOf(headers[i]))
  }

  /** Text a header key or value can carry and come back unchanged: ASCII,
      no line break, no `": "`. */
  predicate IsHeaderText(s: string) {
    IsAscii(s) && '\r' !in s && '\n' !in s && Absent(s, HeaderSeparator)
  }

  predicate WellFormed(headers: Headers) {
    && |headers| >= 1
    && DistinctKeys(headers)
    && forall i :: 0 <= i < |headers| ==> IsHeaderText(headers[i].0) && IsHeaderText(headers[i].1)
  }

  /** The header block is its lines joined by line breaks, plus one more. */
  lemma {:induction false} HeaderBlockIsJoin(headers: Headers)
    requires |headers| >= 1
    ensures HeaderBlock(headers) == JoinOn(LinesOf(headers), LineBreak) + LineBreak
    decreases |headers|
  {
    if |headers| > 1 {
      HeaderBlockIsJoin(headers[1..]);
      assert LinesOf(headers)[1..] == LinesOf(headers[1..]);
    }
  }

  /** A line every CR of which is followed, two places on, by something
      other than CR: no blank line starts inside it. */
  predicate NoBlankLine(t: string) {
    forall j :: 0 <= j < |t| && t[j] == '\r' ==> j + 2 < |t| && t[j + 2] != '\r'
  }

  predicate IsPlainLine(line: string) {
    |line| > 0 && IsAscii(line) && '\r' !in line && '\n' !in line
  }

  /** Lines without line breaks, joined by CR LF, are ASCII and contain no
      blank line. */
  lemma {:induction false} JoinedLines(lines: seq<string>)
    requires |lines| >= 1
    requires forall i :: 0 <= i < |lines| ==> IsPlainLine(lines[i])
    ensures IsAscii(JoinOn(lines, LineBreak)) && NoBlankLine(JoinOn(lines, LineBreak))
    decreases |lines|
  {
    if |lines| > 1 {
      JoinedLines(lines[1..]);
      var rest := JoinOn(lines[1..], LineBreak);
      var t := lines[0] + LineBreak + rest;
      assert JoinOn(lines, LineBreak) == t;
      assert |rest| > 0 && rest[0] == lines[1][0] by {
        if |lines[1..]| > 1 {
          assert rest == lines[1] + LineBreak + JoinOn(lines[2..], LineBreak);
        }
      }
      assert forall j :: 0 <= j < |lines[0]| ==> t[j] == lines[0][j];
      assert forall j :: |lines[0]| + 2 <= j < |t| ==> t[j] == rest[j - |lines[0]| - 2];
      assert IsAscii(t);
    }
  }

  /** Text with no blank line inside is followed by the first blank line. */
  lemma NoBlankLineSeparatorFree(t: string)
    requires IsAscii(t) && NoBlankLine(t)
    ensures SeparatorFree(Utf8Encode(t), HeaderEnd)
  {
    Utf8EncodeAscii(t);
    var p := Utf8Encode(t);
    forall j | 0 <= j < |p|
      ensures !OccursAt(p + HeaderEnd, HeaderEnd, j)
    {
      if t[j] == '\r' {
        assert (p + HeaderEnd)[j + 2] == p[j + 2] != 13;
      } else {
        assert (p + HeaderEnd)[j] == p[j] != 13;
      }
    }
  }

  /** A line without CR is followed by the first line break. */
  lemma NoCrSeparatorFree(line: string)
    requires '\r' !in line
    ensures SeparatorFree(line, LineBreak) && Absent(line, LineBreak)
  {
    forall j | 0 <= j && j + 2 <= |line| ensures !OccursAt(line, LineBreak, j) {
      assert line[j..j + 2][0] == line[j];
    }
    SeparatorFreePair(line, LineBreak);
  }

  /** A header line reads back as its entry. */
  lemma ParseLineOf(h: (string, string))
    requires IsHeaderText(h.0) && IsHeaderText(h.1)
    ensures ParseHeaderLine(LineOf(h)) == Ok(h)
  {
    forall j | 0 <= j && j + 2 <= |h.0| ensures !OccursAt(h.0, HeaderSeparator, j) { }
    SeparatorFreePair(h.0, HeaderSeparator);
    SplitJoin([h.0, h.1], HeaderSeparator);
    assert JoinOn([h.0, h.1], HeaderSeparator) == LineOf(h);
  }

  /** Parsing the bytes of a message gives the message back, when it has a
      header and its keys and values are header text. */
  lemma ParseGetBytes(m: Message)
    requires WellFormed(m.headers)
    ensures Parse(GetBytes(m)) == Ok(m)
  {
    var t := JoinOn(LinesOf(m.headers), LineBreak);
    assert GetBytes(m) == Utf8Encode(t) + HeaderEnd + m.body by {
      HeaderBlockIsJoin(m.headers);
      Utf8EncodeAppend(t, LineBreak);
      assert Utf8Encode(LineBreak) == [13, 10];
      assert Utf8Encode(HeaderBlock(m.headers)) == Utf8Encode(t) + [13, 10];
    }
    ParseJoinedLines(m.headers, m.body);
  }

  /** The bytes of the joined header lines, a blank line and a body parse
      as those headers and that body. */
  lemma ParseJoinedLines(headers: Headers, body: seq<byte>)
    requires WellFormed(headers)
    ensures Parse(Utf8Encode(JoinOn(LinesOf(headers), LineBreak)) + HeaderEnd + body) == Ok(Message(headers, body))
  {
    var lines := LinesOf(headers);
    HeaderLinesArePlain(headers);
    JoinedLines(lines);
    var t := JoinOn(lines, LineBreak);
    SplitAtHeaderEnd(t, body);
    DecodeEncodeAscii(t);
    assert SplitOn(t, LineBreak) == lines by {
      forall i | 0 <= i < |lines| - 1 ensures SeparatorFree(lines[i], LineBreak) {
        NoCrSeparatorFree(lines[i]);
      }
      NoCrSeparatorFree(lines[|lines| - 1]);
      SplitJoin(lines, LineBreak);
    }
    ToDictionaryOk([], lines, ParseHeaderLine, headers);
    assert [] + headers == headers;
  }

  /** Every header line is a plain line and reads back as its entry. */
  lemma HeaderLinesArePlain(headers: Headers)
    requires forall i :: 0 <= i < |headers| ==> IsHeaderText(headers[i].0) && IsHeaderText(headers[i].1)
    ensures forall i :: 0 <= i < |headers| ==>
      IsPlainLine(LinesOf(headers)[i]) && ParseHeaderLine(LinesOf(headers)[i]) == Ok(headers[i])
  {
    var lines := LinesOf(headers);
    forall i | 0 <= i < |lines| ensures IsPlainLine(lines[i]) && ParseHeaderLine(lines[i]) == Ok(headers[i]) {
      var h := headers[i];
      ParseLineOf(h);
      assert lines[i] == h.0 + HeaderSeparator + h.1;
      assert lines[i][|h.0|] == ':';
      assert forall j :: 0 <= j < |h.0| ==> lines[i][j] == h.0[j];
      assert forall j :: |h.0| + 2 <= j < |lines[i]| ==> lines[i][j] == h.1[j - |h.0| - 2];
    }
  }

  /** The header bytes of a text with no blank line, followed by a blank
      line, split there. */
  lemma SplitAtHeaderEnd(t: string, body: seq<byte>)
    requires IsAscii(t) && NoBlankLine(t)
    ensures Split(Utf8Encode(t) + HeaderEnd + body, HeaderEnd) == SplitResult(true, Utf8Encode(t), body)
  {
    var bytes := Utf8Encode(t) + HeaderEnd + body;
    NoBlankLineSeparatorFree(t);
    IndexOfAfterPart(Utf8Encode(t), HeaderEnd, body);
    assert bytes[..|Utf8Encode(t)|] == Utf8Encode(t);
    assert bytes[|Utf8Encode(t)| + 4..] == body;
  }

  /** A new message is plain text and survives the round trip. */
  lemma NewMessageIsPlainText()
    ensures ContentType(NewMessage) == Ok(PlainText)
    ensures Parse(GetBytes(NewMessage)) == Ok(NewMessage)
  {
    assert ContentType(NewMessage) == Ok(PlainText) by {
      assert Find(NewMessage.headers, ContentTypeKey) == Some(1) by {
        assert NewMessage.headers[0].0[0] == 'M';
      }
    }
    assert WellFormed(NewMessage.headers) by {
      NewMessageHeaderText();
      assert NewMessage.headers[0].0[0] == 'M' && NewMessage.headers[1].0[0] == 'C';
    }
    ParseGetBytes(NewMessage);
  }

  lemma NewMessageHeaderText()
    ensures IsHeaderText("MIME-Version") && IsHeaderText("1.0")
    ensures IsHeaderText(ContentTypeKey) && IsHeaderText(PlainText)
  {
    HeaderTextOfNoColon("MIME-Version");
    HeaderTextOfNoColon("1.0");
    HeaderTextOfNoColon(ContentTypeKey);
    PlainTextIsHeaderText();
  }

  lemma PlainTextIsHeaderText()
    ensures IsHeaderText(PlainText)
  {
    HeaderTextOfNoColon(PlainText);
  }

  /** ASCII text without a colon or line break is header text. */
  lemma HeaderTextOfNoColon(s: string)
    requires IsAscii(s) && ':' !in s && '\r' !in s && '\n' !in s
    ensures IsHeaderText(s)
  {
    forall j | 0 <= j < |s| ensures !OccursAt(s, HeaderSeparator, j) {
      if j + 2 <= |s| {
        assert s[j..j + 2][0] == s[j];
      }
    }
  }
}

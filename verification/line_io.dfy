/** `LineReader` and `LineWriter` of IO.cs: framing of CR LF terminated
    lines and exact-length payloads over a growable receive buffer. The
    stream is replaced by the sequence of chunks its reads return. */
module LineIO {

  import opened Wrappers
  import opened Failures
  import opened Helpers
  import opened Text

  const CR: byte := 13
  const LF: byte := 10
  const CRLF: seq<byte> := [CR, LF]

  /** Size of the scratch array each stream read fills at most. */
  const ReadSize: nat := 1024

  /** The reader's state: the bytes received and not yet consumed, and the
      position where the previous line scan stopped. */
  datatype LineReader = LineReader(buffer: seq<byte>, cursor: nat)

  /** A new reader starts with an empty buffer. */
  function NewReader(): (r: LineReader)
    ensures Valid(r) && |r.buffer| == 0
  {
    LineReader([], 0)
  }

  /** A CR LF pair starts at `i`. */
  predicate TerminatorAt(buf: seq<byte>, i: int) {
    0 <= i && i + 1 < |buf| && buf[i] == CR && buf[i + 1] == LF
  }

  /** The reader invariant: the cursor lies within the buffer, and every CR
      before it has already been seen followed by a byte other than LF. */
  predicate Valid(r: LineReader) {
    r.cursor <= |r.buffer| &&
    forall i :: 0 <= i < r.cursor && r.buffer[i] == CR ==> i + 1 < |r.buffer| && r.buffer[i + 1] != LF
  }

  lemma TerminatorIsOccurrence(buf: seq<byte>, i: nat)
    ensures TerminatorAt(buf, i) <==> OccursAt(buf, CRLF, i)
  {
    if i + 2 <= |buf| {
      assert buf[i..i + 2] == [buf[i], buf[i + 1]];
    }
  }

  /** `Array.IndexOf(buffer, value, startIndex)`. */
  function IndexOfByte(buf: seq<byte>, value: byte, start: nat): (r: int)
    requires start <= |buf|
    ensures r == -1 || start <= r < |buf|
    ensures r >= 0 ==> buf[r] == value && forall j :: start <= j < r ==> buf[j] != value
    ensures r == -1 ==> forall j :: start <= j < |buf| ==> buf[j] != value
    decreases |buf| - start
  {
    if start == |buf| then -1
    else if buf[start] == value then start
    else IndexOfByte(buf, value, start + 1)
  }

  /** `GetLineFromBuffer`: scan for a CR from the cursor; a CR followed by LF
      ends the line, a lone CR is stepped over, and a CR in the last byte
      or no CR at all means "no line yet". The result agrees with cutting
      the buffer at its first CR LF (`ByteExt.Split`). */
  method GetLineFromBuffer(r: LineReader) returns (line: Option<seq<byte>>, next: LineReader)
    requires Valid(r)
    ensures Valid(next)
    ensures line.Some? <==> Split(r.buffer, CRLF).found
    ensures line.Some? ==> line.value == Split(r.buffer, CRLF).out1
    ensures line.Some? ==> next == LineReader(Split(r.buffer, CRLF).out2, 0)
    ensures line.Some? ==> r.buffer == line.value + CRLF + next.buffer
    ensures line.None? ==> next.buffer == r.buffer
    ensures line.None? ==> next.cursor == |r.buffer| || (next.cursor == |r.buffer| - 1 && r.buffer[next.cursor] == CR)
  {
    var buf := r.buffer;
    var cursor := r.cursor;
    while true
      invariant cursor <= |buf|
      invariant forall i :: 0 <= i < cursor && buf[i] == CR ==> i + 1 < |buf| && buf[i + 1] != LF
      decreases |buf| - cursor
    {
      var cr := IndexOfByte(buf, CR, cursor);
      if cr == -1 {
        NoTerminator(buf);
        return None, LineReader(buf, |buf|);
      }
      if |buf| < cr + 2 {
        NoTerminator(buf);
        return None, LineReader(buf, cr);
      }
      if buf[cr + 1] == LF {
        FirstTerminator(buf, cr);
        return Some(buf[..cr]), LineReader(buf[cr + 2..], 0);
      }
      cursor := cr + 1;
    }
  }

  /** Without any CR LF pair, `Split` finds nothing. */
  lemma NoTerminator(buf: seq<byte>)
    requires forall i :: 0 <= i < |buf| && buf[i] == CR ==> i + 1 >= |buf| || buf[i + 1] != LF
    ensures !Split(buf, CRLF).found
  {
    forall j | 0 <= j < |buf|
      ensures !OccursAt(buf, CRLF, j)
    {
      TerminatorIsOccurrence(buf, j);
    }
  }

  /** The first CR LF pair is where `Split` cuts. */
  lemma FirstTerminator(buf: seq<byte>, cr: nat)
    requires TerminatorAt(buf, cr)
    requires forall i :: 0 <= i < cr && buf[i] == CR ==> i + 1 < |buf| && buf[i + 1] != LF
    ensures Split(buf, CRLF) == SplitResult(true, buf[..cr], buf[cr + 2..])
  {
    TerminatorIsOccurrence(buf, cr);
    forall j | 0 <= j < cr
      ensures !OccursAt(buf, CRLF, j)
    {
      TerminatorIsOccurrence(buf, j);
    }
    assert IndexOf(buf, CRLF) == cr;
  }

  /** The line text: `Encoding.UTF8.GetString`, one character per byte. */
  function LineText(line: seq<byte>): (s: string)
    ensures |s| == |line|
  {
    BytesToText(line)
  }

  /** `GetMoreData`: a read of length zero means the stream has ended and
      nothing changes; otherwise the bytes read are appended. */
  function GetMoreData(r: LineReader, incoming: seq<byte>): (res: (bool, LineReader))
    requires |incoming| <= ReadSize
    ensures res.0 <==> |incoming| > 0
    ensures res.1.buffer == r.buffer + incoming && res.1.cursor == r.cursor
    ensures Valid(r) ==> Valid(res.1)
  {
    if |incoming| == 0 then (false, r)
    else
      var next := LineReader(r.buffer + incoming, r.cursor);
      assert forall i :: 0 <= i < |r.buffer| ==> next.buffer[i] == r.buffer[i];
      (true, next)
  }

  /** The outcome of copying a payload out of the buffer. */
  datatype Taken = Taken(ok: bool, dst: seq<byte>, reader: LineReader)

  /** `Buffer.BlockCopy` bounds: `count` elements from `srcOffset` into an
      array of length `dstLength` at `dstOffset`. */
  predicate BlockCopyFits(srcLength: nat, srcOffset: nat, dstLength: nat, dstOffset: nat, count: nat) {
    srcOffset + count <= srcLength && dstOffset + count <= dstLength
  }

  /** `TakeFromBuffer` as written: the remainder of the buffer is copied into
      the new buffer at `dstOffset` rather than at 0, so any non-zero offset
      overruns the new buffer and `Buffer.BlockCopy` throws. */
  function TakeFromBufferAsWritten(r: LineReader, dst: seq<byte>, dstOffset: nat, count: nat): (t: Result<Taken, Failure>)
    ensures |r.buffer| < count ==> t == Ok(Taken(false, dst, r))
    ensures |r.buffer| >= count && dstOffset > 0 ==> t == Err(Argument)
    ensures t.Ok? && t.value.ok ==> count <= |t.value.dst| && t.value.dst[..count] == r.buffer[..count] && t.value.reader.buffer == r.buffer[count..]
  {
    if |r.buffer| >= count then
      if !BlockCopyFits(|r.buffer|, 0, |dst|, dstOffset, count) then Err(Argument)
      else if !BlockCopyFits(|r.buffer|, count, |r.buffer| - count, dstOffset, |r.buffer| - count) then Err(Argument)
      else Ok(Taken(true, dst[..dstOffset] + r.buffer[..count] + dst[dstOffset + count..], LineReader(r.buffer[count..], r.cursor)))
    else Ok(Taken(false, dst, r))
  }

  /** A one-byte payload into offset 1 of a two-byte array is rejected
      although everything fits. */
  lemma TakeFromBufferAsWrittenRejectsOffset()
    ensures TakeFromBufferAsWritten(LineReader([7], 0), [0, 0], 1, 1) == Err(Argument)
  {
  }

  /** `TakeFromBuffer` as intended: the first `count` bytes go to `dst` at
      `dstOffset`, and the buffer keeps the rest; the cursor is untouched. */
  function TakeFromBuffer(r: LineReader, dst: seq<byte>, dstOffset: nat, count: nat): (t: Result<Taken, Failure>)
    ensures |r.buffer| < count ==> t == Ok(Taken(false, dst, r))
    ensures t.Err? <==> |r.buffer| >= count && dstOffset + count > |dst|
    ensures t.Ok? && t.value.ok ==>
      && |t.value.dst| == |dst|
      && t.value.dst[dstOffset..dstOffset + count] == r.buffer[..count]
      && t.value.dst[..dstOffset] == dst[..dstOffset]
      && t.value.dst[dstOffset + count..] == dst[dstOffset + count..]
      && r.buffer == r.buffer[..count] + t.value.reader.buffer
      && t.value.reader.cursor == r.cursor
  {
    if |r.buffer| >= count then
      if !BlockCopyFits(|r.buffer|, 0, |dst|, dstOffset, count) then Err(Argument)
      else
        var d := dst[..dstOffset] + r.buffer[..count] + dst[dstOffset + count..];
        assert d[dstOffset..dstOffset + count] == r.buffer[..count];
        assert r.buffer == r.buffer[..count] + r.buffer[count..];
        Ok(Taken(true, d, LineReader(r.buffer[count..], r.cursor)))
    else Ok(Taken(false, dst, r))
  }

  /** At offset 0, the only offset the library itself uses, the two agree. */
  lemma TakeFromBufferAtZero(r: LineReader, dst: seq<byte>, count: nat)
    ensures TakeFromBufferAsWritten(r, dst, 0, count) == TakeFromBuffer(r, dst, 0, count)
  {
  }

  /** After a line has been taken the cursor is 0, and taking a payload then
      keeps the reader valid. */
  lemma TakeFromBufferKeepsValid(r: LineReader, dst: seq<byte>, dstOffset: nat, count: nat)
    requires Valid(r) && r.cursor == 0
    requires TakeFromBuffer(r, dst, dstOffset, count).Ok?
    ensures Valid(TakeFromBuffer(r, dst, dstOffset, count).value.reader)
  {
  }

  /** All bytes of a sequence of reads, in order. */
  function Flatten(chunks: seq<seq<byte>>): (bs: seq<byte>)
    decreases |chunks|
  {
    if |chunks| == 0 then [] else chunks[0] + Flatten(chunks[1..])
  }

  lemma {:induction false} FlattenAppend(a: seq<seq<byte>>, c: seq<byte>)
    ensures Flatten(a + [c]) == Flatten(a) + c
    decreases |a|
  {
    if |a| == 0 {
      assert a + [c] == [c];
    } else {
      assert (a + [c])[1..] == a[1..] + [c];
      FlattenAppend(a[1..], c);
    }
  }

  /** `ReadLineAsync`: scan the buffer for a line, otherwise read another
      chunk; a zero-length read (or the end of the chunks) ends the stream
      and the call answers null. The line returned is the text before the
      first CR LF of everything received, and what follows that CR LF stays
      buffered. */
  method ReadLine(r: LineReader, chunks: seq<seq<byte>>) returns (line: Option<seq<byte>>, next: LineReader, consumed: nat)
    requires Valid(r)
    requires forall k :: 0 <= k < |chunks| ==> |chunks[k]| <= ReadSize
    ensures Valid(next) && consumed <= |chunks|
    ensures line.Some? ==>
      Split(r.buffer + Flatten(chunks[..consumed]), CRLF) == SplitResult(true, line.value, next.buffer)
    ensures line.None? ==>
      && !Split(r.buffer + Flatten(chunks[..consumed]), CRLF).found
      && next.buffer == r.buffer + Flatten(chunks[..consumed])
      && (consumed == |chunks| || (consumed > 0 && |chunks[consumed - 1]| == 0))
  {
    var current := r;
    consumed := 0;
    assert chunks[..0] == [];
    while true
      invariant Valid(current) && consumed <= |chunks|
      invariant current.buffer == r.buffer + Flatten(chunks[..consumed])
      decreases |chunks| - consumed
    {
      var found, after := GetLineFromBuffer(current);
      if found.Some? {
        var sp := Split(current.buffer, CRLF);
        assert after.buffer == sp.out2;
        return found, after, consumed;
      }
      if consumed == |chunks| {
        return None, after, consumed;
      }
      var (more, filled) := GetMoreData(after, chunks[consumed]);
      assert chunks[..consumed + 1] == chunks[..consumed] + [chunks[consumed]];
      FlattenAppend(chunks[..consumed], chunks[consumed]);
      if !more {
        assert chunks[consumed] == [];
        assert Flatten(chunks[..consumed + 1]) == Flatten(chunks[..consumed]) + [];
        assert filled.buffer == current.buffer == r.buffer + Flatten(chunks[..consumed + 1]);
        return None, filled, consumed + 1;
      }
      current := filled;
      consumed := consumed + 1;
    }
  }

  /** What `ReadAsync` leaves behind. */
  datatype ReadOutcome = ReadOutcome(ok: bool, dst: seq<byte>, reader: LineReader, consumed: nat)

  /** `ReadAsync`: take `count` bytes as soon as the buffer holds them,
      otherwise read another chunk; a zero-length read ends the stream and
      the call answers false. An exhausted chunk sequence reads as zero.
      The bytes are taken as `TakeFromBuffer` is written, so a non-zero
      offset throws once the bytes are there; the library itself only
      passes offset 0. */
  function ReadAsync(r: LineReader, dst: seq<byte>, offset: nat, count: nat, chunks: seq<seq<byte>>): (o: Result<ReadOutcome, Failure>)
    requires forall k :: 0 <= k < |chunks| ==> |chunks[k]| <= ReadSize
    ensures o.Ok? ==> o.value.consumed <= |chunks|
    ensures o.Ok? && o.value.ok ==>
      && |o.value.dst| == |dst|
      && offset + count <= |dst|
      && r.buffer + Flatten(chunks[..o.value.consumed]) == o.value.dst[offset..offset + count] + o.value.reader.buffer
    ensures o.Ok? && !o.value.ok ==>
      && o.value.dst == dst
      && |r.buffer + Flatten(chunks[..o.value.consumed])| < count
    ensures o.Ok? && o.value.ok ==> offset == 0
    ensures o.Err? ==> o.error == Argument && (offset > 0 || count > |dst|)
    ensures offset == 0 && count <= |dst| ==> o.Ok?
    decreases |chunks|, if |r.buffer| >= count then 0 else 1
  {
    match TakeFromBufferAsWritten(r, dst, offset, count)
    case Err(e) => Err(e)
    case Ok(t) =>
      if t.ok then
        TakeFromBufferAtZero(r, dst, count);
        assert chunks[..0] == [];
        Ok(ReadOutcome(true, t.dst, t.reader, 0))
      else if |chunks| == 0 then
        assert chunks[..0] == [];
        Ok(ReadOutcome(false, dst, r, 0))
      else
        var (more, r2) := GetMoreData(r, chunks[0]);
        if !more then
          assert chunks[..1] == [chunks[0]];
          assert Flatten([chunks[0]]) == chunks[0] + Flatten([]);
          Ok(ReadOutcome(false, dst, r, 1))
        else
          match ReadAsync(r2, dst, offset, count, chunks[1..])
          case Err(e) => Err(e)
          case Ok(o) =>
            assert chunks[..o.consumed + 1] == [chunks[0]] + chunks[1..][..o.consumed];
            Ok(o.(consumed := o.consumed + 1))
  }

  /** `LineWriter.WriteLineAsync`: the UTF-8 bytes of the line and CR LF. */
  function WriteLine(line: string): (bs: seq<byte>)
    ensures bs == Utf8Encode(line) + CRLF
  {
    Utf8EncodeAppend(line, "\r\n");
    Utf8Encode(line + "\r\n")
  }

  /** A written line comes back from the reader, and whatever followed it
      stays in the buffer, provided the line is ASCII without a CR. */
  lemma WrittenLineIsRead(line: string, rest: seq<byte>)
    requires IsAscii(line) && '\r' !in line
    ensures Split(WriteLine(line) + rest, CRLF) == SplitResult(true, Utf8Encode(line), rest)
    ensures LineText(Split(WriteLine(line) + rest, CRLF).out1) == line
  {
    var bs := Utf8Encode(line);
    Utf8EncodeAscii(line);
    DecodeEncodeAscii(line);
    assert CR !in bs by {
      forall i | 0 <= i < |bs|
        ensures bs[i] != CR
      {
        assert bs[i] == line[i] as int;
        assert line[i] != '\r';
      }
    }
    SeparatorFreeSingleAsPair(bs);
    IndexOfAfterPart(bs, CRLF, rest);
    var all := bs + CRLF + rest;
    assert WriteLine(line) + rest == all;
    assert all[..|bs|] == bs;
    assert all[|bs| + 2..] == rest;
  }

  /** Without any CR, a byte string cannot hide a CR LF before its end. */
  lemma SeparatorFreeSingleAsPair(bs: seq<byte>)
    requires CR !in bs
    ensures SeparatorFree(bs, CRLF)
  {
    forall j | 0 <= j && j + 2 <= |bs|
      ensures !OccursAt(bs, CRLF, j)
    {
      assert bs[j..j + 2][0] == bs[j];
    }
    SeparatorFreePair(bs, CRLF);
  }
}

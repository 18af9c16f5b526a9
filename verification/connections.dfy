/** Connections.cs: `SocketEndPoint` text, and the error and close
    behaviour of `SocketConnection`. The socket itself is a parameter: a
    function from the number of a call to what the socket did on it. */
module Connections {

  import opened Wrappers
  import opened Failures
  import opened Helpers
  import opened Text

  // ------------------------------------------------------------ end points

  /** `SocketEndPoint`: an address and an `int` port. */
  datatype EndPoint = EndPoint(address: string, port: int)

  /** `SocketEndPoint.Parse`: `s.Split(':')`, the first part as the
      address and `Int32.Parse` of the second as the port; parts after
      the second are ignored, and a missing second part throws. */
  function ParseEndPoint(s: string): (r: Result<EndPoint, Failure>)
    ensures r.Ok? ==> IsInt32(r.value.port) && ':' !in r.value.address
    ensures r.Err? ==> r.error in {IndexOutOfRange, Format, Overflow}
    ensures ':' !in s ==> r == Err(IndexOutOfRange)
  {
    var parts := SplitChar(s, ':');
    if ':' !in s then
      NoSeparatorOnePart(s);
      Err(IndexOutOfRange)
    else if |parts| < 2 then Err(IndexOutOfRange)
    else
      match ParseInt32(parts[1])
      case Err(f) => Err(f)
      case Ok(port) =>
        FirstPartHasNoSeparator(s);
        Ok(EndPoint(parts[0], port))
  }

  /** `SocketEndPoint.ToString`: `"{0}:{1}"`. */
  function EndPointToString(e: EndPoint): (s: string)
    ensures s == JoinOn([e.address, IntToString(e.port)], [':'])
  {
    e.address + ":" + IntToString(e.port)
  }

  /** A string without a colon splits into itself alone. */
  lemma NoSeparatorOnePart(s: string)
    requires ':' !in s
    ensures SplitChar(s, ':') == [s]
  {
    SplitJoinChar([s], ':');
  }

  /** The first part of a split never holds the separator. */
  lemma FirstPartHasNoSeparator(s: string)
    ensures ':' !in SplitChar(s, ':')[0]
  {
    var i := IndexOf(s, [':']);
    if i >= 0 {
      forall j | 0 <= j < i
        ensures s[j] != ':'
      {
        assert !OccursAt(s, [':'], j);
      }
    } else {
      forall j | 0 <= j < |s|
        ensures s[j] != ':'
      {
        assert !OccursAt(s, [':'], j);
      }
    }
  }

  /** Formatting an end point and parsing the text gives it back, provided
      the address holds no colon and the port fits an `int`. */
  lemma EndPointRoundTrip(e: EndPoint)
    requires ':' !in e.address && IsInt32(e.port)
    ensures ParseEndPoint(EndPointToString(e)) == Ok(e)
  {
    var p := IntToString(e.port);
    IntToStringExcludes(e.port, {':'});
    assert ':' !in p;
    SplitJoinChar([e.address, p], ':');
    var s := EndPointToString(e);
    assert s[|e.address|] == ':';
    ParseIntToString(e.port, MinInt32, MaxInt32);
  }

  /** Where every login starts. */
  const DefaultServer: string := "messenger.hotmail.com:1863"

  lemma DefaultServerParses()
    ensures ParseEndPoint(DefaultServer) == Ok(EndPoint("messenger.hotmail.com", 1863))
  {
    var e := EndPoint("messenger.hotmail.com", 1863);
    DefaultServerText();
    EndPointRoundTrip(e);
  }

  lemma DefaultServerText()
    ensures ':' !in "messenger.hotmail.com"
    ensures EndPointToString(EndPoint("messenger.hotmail.com", 1863)) == DefaultServer
  {
    DefaultPortText();
  }

  lemma DefaultPortText()
    ensures IntToString(1863) == "1863"
  {
    assert NatToString(1) == "1";
    assert NatToString(18) == "18";
    assert NatToString(186) == "186";
  }

  // ----------------------------------------------------------- connections

  /** The state of a `SocketConnection`: whether it was closed, and whether
      its `Error` event has been raised (`eventRaised`). */
  datatype Connection = Connection(closed: bool, errorRaised: bool)

  const NewConnection: Connection := Connection(false, false)

  /** What the socket did on one call: moved some bytes, or failed with a
      `SocketException`. */
  datatype SocketOp = Moved(count: nat) | SocketError

  /** The result of one connection call: the connection after it, whether
      the `Error` event was raised by it, and the value or failure. */
  datatype IoStep<T> = IoStep(conn: Connection, raisedError: bool, result: Result<T, Failure>)

  /** The `catch (SocketException)` block: the event is raised on the first
      failure only (`Interlocked.Exchange(ref eventRaised, 1)`), and the
      call fails with a `SocketConnectionException`. */
  function SocketFailure<T>(conn: Connection): (r: IoStep<T>)
    ensures r.raisedError <==> !conn.errorRaised
    ensures r.conn == conn.(errorRaised := true)
    ensures r.result == Err(ConnectionFailure)
  {
    IoStep(conn.(errorRaised := true), !conn.errorRaised, Err(ConnectionFailure))
  }

  /** `ReceiveAsync`: a zero-byte read is an unexpected disconnect, thrown
      outside the socket-exception handler, so no event is raised for it.
      A closed socket throws `ObjectDisposedException`. The socket never
      moves more than was asked for. */
  function Receive(conn: Connection, size: nat, op: SocketOp): (r: IoStep<nat>)
    ensures r.raisedError <==> !conn.closed && op.SocketError? && !conn.errorRaised
    ensures r.conn.closed == conn.closed
    ensures r.conn.errorRaised <==> conn.errorRaised || (op.SocketError? && !conn.closed)
    ensures conn.closed ==> r.result == Err(ObjectDisposed)
    ensures r.result.Ok? <==> !conn.closed && op.Moved? && Min(op.count, size) > 0
    ensures r.result.Ok? ==> r.result.value == Min(op.count, size) && 0 < r.result.value <= size
    ensures r.result.Err? && !conn.closed ==> r.result.error == ConnectionFailure
  {
    if conn.closed then IoStep(conn, false, Err(ObjectDisposed))
    else match op
      case SocketError => SocketFailure(conn)
      case Moved(n) =>
        var received := Min(n, size);
        if received == 0 then IoStep(conn, false, Err(ConnectionFailure))
        else IoStep(conn, false, Ok(received))
  }

  /** A disconnect seen as a zero-byte read leaves the `Error` event
      unraised, so the next socket failure raises it. */
  lemma ZeroReadKeepsErrorArmed(size: nat)
    ensures var r := Receive(NewConnection, size, Moved(0));
      r.result == Err(ConnectionFailure) && !r.raisedError &&
      Receive(r.conn, size, SocketError).raisedError
  {
  }

  function Min(a: nat, b: nat): (m: nat)
    ensures m <= a && m <= b && (m == a || m == b)
  {
    if a <= b then a else b
  }

  /** How the send loop shortens `remains` after each call: the library
      subtracts the whole `size`; `BySent` subtracts what was sent. */
  datatype Decrement = BySize | BySent

  /** The `while (remains > 0)` loop of `SendAsync`: each call asks the
      socket for `remains` bytes from `offset + (size - remains)`; the
      bytes it moved (at most those asked for) go onto the wire. */
  function SendLoop(conn: Connection, data: seq<byte>, offset: nat, size: nat, remains: int,
                    call: nat, socket: nat -> SocketOp, rule: Decrement, wire: seq<byte>): (r: IoStep<seq<byte>>)
    requires offset + size <= |data| && remains <= size
    requires |wire| <= size && wire == data[offset..offset + |wire|]
    requires remains > 0 ==> |wire| == size - remains
    requires rule == BySent ==> remains >= 0 && |wire| == size - remains
    ensures r.conn.closed == conn.closed
    ensures r.raisedError ==> !conn.errorRaised
    ensures r.result.Ok? ==> |wire| <= |r.result.value| <= size && r.result.value == data[offset..offset + |r.result.value|]
    ensures r.result.Ok? && rule == BySent ==> r.result.value == data[offset..offset + size]
    decreases Max0(remains)
  {
    if remains <= 0 then IoStep(conn, false, Ok(wire))
    else
      var start := offset + |wire|;
      match socket(call)
      case SocketError => SocketFailure(conn)
      case Moved(n) =>
        if n == 0 then IoStep(conn, false, Err(ConnectionFailure))
        else
          var sent := Min(n, remains);
          var next := if rule == BySize then remains - size else remains - sent;
          assert data[offset..start + sent] == data[offset..start] + data[start..start + sent];
          SendLoop(conn, data, offset, size, next, call + 1, socket, rule, wire + data[start..start + sent])
  }

  function Max0(i: int): (n: nat)
    ensures i >= 0 ==> n == i
    ensures i < 0 ==> n == 0
  {
    if i < 0 then 0 else i
  }

  /** `SendAsync` with a given decrement rule. An empty send never calls
      `BeginSend`. Otherwise a closed (disposed) socket makes `BeginSend`
      throw `ObjectDisposedException` before it looks at the range, and
      the catch rethrows it; on an open socket a range outside the buffer
      makes `BeginSend` throw, which is not caught. */
  function SendWith(conn: Connection, data: seq<byte>, offset: nat, size: nat,
                    socket: nat -> SocketOp, rule: Decrement): (r: IoStep<seq<byte>>)
    ensures conn.closed && size > 0 ==> r == IoStep(conn, false, Err(ObjectDisposed))
    ensures !conn.closed && offset + size > |data| && size > 0 ==> r == IoStep(conn, false, Err(ArgumentOutOfRange))
    ensures size == 0 ==> r == IoStep(conn, false, Ok([]))
    ensures r.raisedError ==> !conn.errorRaised
    ensures r.result.Ok? && size > 0 ==>
      offset + |r.result.value| <= |data| && r.result.value == data[offset..offset + |r.result.value|]
    ensures r.result.Ok? && size > 0 && rule == BySent ==> r.result.value == data[offset..offset + size]
  {
    if size == 0 then IoStep(conn, false, Ok([]))
    else if conn.closed then IoStep(conn, false, Err(ObjectDisposed))
    else if offset + size > |data| then IoStep(conn, false, Err(ArgumentOutOfRange))
    else SendLoop(conn, data, offset, size, size, 0, socket, rule, [])
  }

  /** `SendAsync` as the library writes it. */
  function Send(conn: Connection, data: seq<byte>, offset: nat, size: nat, socket: nat -> SocketOp): (r: IoStep<seq<byte>>)
    ensures conn.closed && size > 0 ==> r.result == Err(ObjectDisposed) && !r.raisedError
    ensures !conn.closed && offset + size > |data| && size > 0 ==> r.result == Err(ArgumentOutOfRange)
    ensures r.result.Ok? && size > 0 ==>
      offset + |r.result.value| <= |data| && r.result.value == data[offset..offset + |r.result.value|]
  {
    SendWith(conn, data, offset, size, socket, BySize)
  }

  /** `SendAsync` as evidently intended: the loop goes on until every byte
      has been sent. */
  function SendAll(conn: Connection, data: seq<byte>, offset: nat, size: nat, socket: nat -> SocketOp): (r: IoStep<seq<byte>>)
    ensures r.result.Ok? && size > 0 ==> offset + size <= |data| && r.result.value == data[offset..offset + size]
    ensures conn.closed && size > 0 ==> r.result == Err(ObjectDisposed) && !r.raisedError
    ensures !conn.closed && offset + size > |data| && size > 0 ==> r.result == Err(ArgumentOutOfRange)
  {
    SendWith(conn, data, offset, size, socket, BySent)
  }

  /** The library's loop makes exactly one call: after it `remains` is
      `size - size`. When the socket moves fewer bytes than asked, the
      call still succeeds and the rest is never sent. */
  lemma SendStopsAfterOnePartialWrite()
    ensures var data: seq<byte> := [1, 2, 3, 4, 5, 6, 7, 8, 9, 10];
      var socket := (call: nat) => Moved(4);
      Send(NewConnection, data, 0, 10, socket) == IoStep(NewConnection, false, Ok([1, 2, 3, 4])) &&
      SendAll(NewConnection, data, 0, 10, socket).result == Ok(data)
  {
    var data: seq<byte> := [1, 2, 3, 4, 5, 6, 7, 8, 9, 10];
    var socket := (call: nat) => Moved(4);
    assert data[0..4] == [1, 2, 3, 4];
    assert data[0..10] == data;
  }

  /** The `Error` event is raised at most once per connection: after any
      call that raised it, no later call raises it again. */
  lemma ErrorRaisedOnce(conn: Connection, data: seq<byte>, offset: nat, size: nat,
                        socket: nat -> SocketOp, op: SocketOp, rule: Decrement, n: nat)
    requires conn.errorRaised
    ensures !Receive(conn, n, op).raisedError
    ensures !SendWith(conn, data, offset, size, socket, rule).raisedError
  {
  }

  /** `Close`: the first call shuts the socket down; later calls do
      nothing. The second result is whether the socket was shut down. */
  function Close(conn: Connection): (r: (Connection, bool))
    ensures r.0.closed && r.0.errorRaised == conn.errorRaised
    ensures r.1 <==> !conn.closed
  {
    if conn.closed then (conn, false) else (conn.(closed := true), true)
  }

  lemma CloseIsIdempotent(conn: Connection)
    ensures Close(Close(conn).0) == (Close(conn).0, false)
  {
  }
}

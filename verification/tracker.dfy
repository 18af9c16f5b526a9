/** `ResponseTracker` (MSNP.cs): numbers each request with the next
    transaction id and waits for the answer carrying that id. The inbound
    stream seen before the timeout is a finite sequence parameter; the wait
    ends with the first command of it that answers the request. */
module Tracker {

  import opened Wrappers
  import opened Failures
  import opened Text
  import opened Commands

  /** The tracker's one piece of state: the last id handed out (a C# `int`,
      zero on construction). */
  datatype Tracker = Tracker(lastId: int)

  predicate Valid(t: Tracker) {
    IsInt32(t.lastId)
  }

  const Fresh: Tracker := Tracker(0)

  /** `Interlocked.Increment` on an `int`: wraps from the largest value to
      the smallest. */
  function Increment(x: int): (y: int)
    requires IsInt32(x)
    ensures IsInt32(y)
    ensures x < MaxInt32 ==> y == x + 1
    ensures x == MaxInt32 ==> y == MinInt32
  {
    if x == MaxInt32 then MinInt32 else x + 1
  }

  /** The id the next request gets, and the tracker afterwards. */
  function NextId(t: Tracker): (r: (int, Tracker))
    requires Valid(t)
    ensures Valid(r.1) && r.1.lastId == r.0
    ensures t.lastId < MaxInt32 ==> r.0 == t.lastId + 1
    ensures t.lastId == MaxInt32 ==> r.0 == MinInt32
  {
    var id := Increment(t.lastId);
    (id, Tracker(id))
  }

  /** A command answers the request numbered `trId` when it carries that id
      and is a server error or of an accepted class. */
  predicate Answers(c: Command, trId: int, accepted: set<CommandType>) {
    c.trId == Some(trId) && (c.body.ServerError? || TypeOf(c.body) in accepted)
  }

  /** The position of the first answer in `inbound`, if any. */
  function FirstAnswer(inbound: seq<Command>, trId: int, accepted: set<CommandType>): (i: Option<nat>)
    ensures i.Some? ==> i.value < |inbound| && Answers(inbound[i.value], trId, accepted)
    ensures i.Some? ==> forall j :: 0 <= j < i.value ==> !Answers(inbound[j], trId, accepted)
    ensures i.None? ==> forall j :: 0 <= j < |inbound| ==> !Answers(inbound[j], trId, accepted)
    decreases |inbound|
  {
    if |inbound| == 0 then None
    else if Answers(inbound[0], trId, accepted) then Some(0)
    else
      match FirstAnswer(inbound[1..], trId, accepted)
      case None => None
      case Some(k) => Some(k + 1)
  }

  /** What one `GetResponseAsync` leaves: the tracker, the request as
      written (with its id filled in) and the outcome. */
  datatype Exchange = Exchange(tracker: Tracker, sent: Command, response: Result<Command, Failure>)

  /** `GetResponseAsync(command, accepted, timeout)`: number the request,
      write it, and take the first answer seen before the timeout. A server
      error answer becomes a `ServerErrorException` with its code; no answer
      is a `TimeoutException`. */
  function GetResponse(t: Tracker, command: Command, accepted: set<CommandType>, inbound: seq<Command>): (x: Exchange)
    requires Valid(t)
    ensures Valid(x.tracker) && x.sent == command.(trId := Some(x.tracker.lastId))
    ensures x.tracker == NextId(t).1
  {
    var (id, next) := NextId(t);
    var sent := command.(trId := Some(id));
    match FirstAnswer(inbound, id, accepted)
    case None => Exchange(next, sent, Err(Timeout))
    case Some(i) =>
      if inbound[i].body.ServerError? then
        Exchange(next, sent, Err(ServerErrorException(inbound[i].body.errorCode)))
      else Exchange(next, sent, Ok(inbound[i]))
  }

  /** `GetResponseAsync(command, timeout)`: the accepted class is the
      request's own. */
  function GetOwnResponse(t: Tracker, command: Command, inbound: seq<Command>): (x: Exchange)
    requires Valid(t)
    ensures x.response.Ok? ==> TypeOf(x.response.value.body) == TypeOf(command.body)
    ensures x.response.Ok? ==> x.response.value.trId == x.sent.trId
  {
    GetResponse(t, command, {TypeOf(command.body)}, inbound)
  }

  /** The response is the first inbound command answering the request:
      the command itself when it is of an accepted class, a server failure
      carrying its code when it is an error, a timeout when there is none. */
  lemma ResponseIsFirstAnswer(t: Tracker, command: Command, accepted: set<CommandType>, inbound: seq<Command>)
    requires Valid(t)
    ensures var x := GetResponse(t, command, accepted, inbound);
      var id := x.tracker.lastId;
      && (x.response.Ok? <==>
            exists i :: 0 <= i < |inbound| && Answers(inbound[i], id, accepted) && !inbound[i].body.ServerError?
              && forall j :: 0 <= j < i ==> !Answers(inbound[j], id, accepted))
      && (x.response.Ok? ==>
            x.response.value in inbound && Answers(x.response.value, id, accepted)
            && TypeOf(x.response.value.body) in accepted)
      && (x.response == Err(Timeout) <==> forall j :: 0 <= j < |inbound| ==> !Answers(inbound[j], id, accepted))
      && (x.response.Err? && x.response.error.ServerFailure? <==>
            exists i :: 0 <= i < |inbound| && Answers(inbound[i], id, accepted) && inbound[i].body.ServerError?
              && forall j :: 0 <= j < i ==> !Answers(inbound[j], id, accepted))
  {
    var x := GetResponse(t, command, accepted, inbound);
    var id := x.tracker.lastId;
    var f := FirstAnswer(inbound, id, accepted);
    if f.Some? {
      var i := f.value;
      forall k | 0 <= k < |inbound| && Answers(inbound[k], id, accepted)
        && forall j :: 0 <= j < k ==> !Answers(inbound[j], id, accepted)
        ensures k == i
      {
      }
    }
  }

  /** A server error answer fails with exactly its code. */
  lemma ServerErrorCarriesCode(t: Tracker, command: Command, accepted: set<CommandType>,
                               before: seq<Command>, code: int, after: seq<Command>)
    requires Valid(t)
    requires forall j :: 0 <= j < |before| ==> !Answers(before[j], NextId(t).0, accepted)
    ensures GetResponse(t, command, accepted, before + [Command(Some(NextId(t).0), ServerError(code))] + after).response
            == Err(ServerErrorException(code))
  {
    var id := NextId(t).0;
    var inbound := before + [Command(Some(id), ServerError(code))] + after;
    assert inbound[|before|] == Command(Some(id), ServerError(code));
    assert Answers(inbound[|before|], id, accepted);
    assert forall j :: 0 <= j < |before| ==> inbound[j] == before[j];
    var f := FirstAnswer(inbound, id, accepted);
    assert f == Some(|before|);
  }

  /** The ids `n` successive requests get, in order. */
  function IdsOf(t: Tracker, n: nat): (ids: seq<int>)
    requires Valid(t)
    ensures |ids| == n
    decreases n
  {
    if n == 0 then [] else
      var (id, next) := NextId(t);
      [id] + IdsOf(next, n - 1)
  }

  /** From a fresh tracker, the k-th request (from zero) is numbered k + 1,
      as long as the count stays below the wrap-around point; so the ids
      strictly increase. */
  lemma {:induction false} IdsCountFromOne(t: Tracker, n: nat)
    requires Valid(t) && 0 <= t.lastId && t.lastId + n <= MaxInt32
    ensures forall k :: 0 <= k < n ==> IdsOf(t, n)[k] == t.lastId + k + 1
    decreases n
  {
    if n > 0 {
      var (id, next) := NextId(t);
      IdsCountFromOne(next, n - 1);
      assert IdsOf(t, n) == [id] + IdsOf(next, n - 1);
    }
  }

  /** The ids of a fresh tracker are 1, 2, 3, … and strictly increase. */
  lemma FreshIdsIncrease(n: nat)
    requires n <= MaxInt32
    ensures forall k :: 0 <= k < n ==> IdsOf(Fresh, n)[k] == k + 1
    ensures forall j, k :: 0 <= j < k < n ==> IdsOf(Fresh, n)[j] < IdsOf(Fresh, n)[k]
  {
    IdsCountFromOne(Fresh, n);
  }
}

/** The request table of a framed connection: upstream/src/dns_framed.cpp. Each method is one stretch of the source between
    two points where the connection's lock is taken or given up. */
module FramedConnection {
  import opened Text
  import opened TcpFraming

  const UNEXPECTED_EOF := "Unexpected EOF"

  datatype ReadResult = ReadResult(reply: Bytes, error: Option<string>)

  type Requests = map<int, Option<ReadResult>>

  datatype Shared = Shared(closed: bool, requests: Requests, pendingReads: int, input: Bytes, output: Bytes)

  /** The id that a message starts with. */
  function IdOf(message: Bytes): int
    requires |message| >= 2
  {
    Word(message[0], message[1])
  }

  /** Messages have the same id exactly when they have the same first two bytes. */
  lemma IdsAreBytes(a: Bytes, b: Bytes)
    requires |a| >= 2 && |b| >= 2
    ensures IdOf(a) == IdOf(b) <==> a[..2] == b[..2]
  {
    assert a[..2] == [a[0], a[1]] && b[..2] == [b[0], b[1]];
    assert a[..2][0] == a[0] && a[..2][1] == a[1] && b[..2][0] == b[0] && b[..2][1] == b[1];
  }

  /** Has the request been answered, by a reply or by an error? */
  predicate Answered(r: Requests, id: int) {
    id in r && r[id].Some?
  }

  // ----- what each stretch does to the shared state -----------------------------------------------------------

  predicate Accepts(s: Shared, buf: Bytes) {
    |buf| >= 2 && !s.closed
  }

  function AfterWrite(s: Shared, buf: Bytes): Shared {
    if Accepts(s, buf) then s.(requests := s.requests[IdOf(buf) := None], output := s.output + Frame(buf)) else s
  }

  /** A request gets an empty entry; the entry of every request whose first two bytes differ stays as it is. */
  lemma WriteTouchesOneEntry(s: Shared, buf: Bytes, other: Bytes)
    requires Accepts(s, buf) && |other| >= 2
    ensures var r, r' := s.requests, AfterWrite(s, buf).requests;
            if other[..2] == buf[..2] then IdOf(other) in r' && r'[IdOf(other)] == None
            else (IdOf(other) in r' <==> IdOf(other) in r) && (IdOf(other) in r ==> r'[IdOf(other)] == r[IdOf(other)])
  {
    IdsAreBytes(other, buf);
  }

  /** A whole message of at least an id is in the input. */
  predicate HasFrame(input: Bytes) {
    HasPayload(input) && SizeAt(input) >= 2
  }

  function FirstFrame(input: Bytes): (r: Bytes)
    requires HasFrame(input)
    ensures |r| >= 2
  {
    input[2..2 + SizeAt(input)]
  }

  function BehindFrame(input: Bytes): Bytes
    requires HasFrame(input)
  {
    input[2 + SizeAt(input)..]
  }

  /** A message is stored under its id, if that was asked for. */
  function Stored(r: Requests, message: Bytes): Requests
    requires |message| >= 2
  {
    if IdOf(message) in r then r[IdOf(message) := Some(ReadResult(message, None))] else r
  }

  /** A message becomes the result of the request with the same first two bytes, if there is one, and of no other. */
  lemma StoreTouchesOneEntry(r: Requests, message: Bytes, other: Bytes)
    requires |message| >= 2 && |other| >= 2
    ensures var r' := Stored(r, message);
            && (IdOf(other) in r' <==> IdOf(other) in r)
            && (IdOf(other) in r ==>
                  r'[IdOf(other)] == if other[..2] == message[..2] then Some(ReadResult(message, None)) else r[IdOf(other)])
  {
    IdsAreBytes(other, message);
  }

  /** Every request without a result gets an error. */
  function Failed(r: Requests, errorOf: int -> string): Requests {
    map id | id in r :: if r[id].Some? then r[id] else Some(ReadResult([], Some(errorOf(id))))
  }

  /** `order` holds exactly the ids of the table. */
  ghost predicate Lists(order: seq<int>, r: Requests) {
    (forall i :: 0 <= i < |order| ==> order[i] in r) && forall id :: id in r ==> id in order
  }

  /** The loop over the entries of the table, in the order in which the table lists them. */
  method FailAll(r: Requests, order: seq<int>, errorOf: int -> string) returns (q: Requests)
    requires Lists(order, r)
    ensures q == Failed(r, errorOf)
  {
    q := r;
    for i := 0 to |order|
      invariant q.Keys == r.Keys
      invariant forall id :: id in r ==> q[id] == r[id] || q[id] == Failed(r, errorOf)[id]
      invariant forall j :: 0 <= j < i ==> q[order[j]] == Failed(r, errorOf)[order[j]]
    {
      var id := order[i];
      if q[id].None? {
        q := q[id := Some(ReadResult([], Some(errorOf(id))))];
      }
    }
    forall id | id in r
      ensures q[id] == Failed(r, errorOf)[id]
    {
      assert id in order;
    }
  }

  class Connection {
    var closed: bool
    var requests: Requests
    var pendingReads: int
    var input: Bytes
    var output: Bytes

    ghost function State(): Shared
      reads this
    {
      Shared(closed, requests, pendingReads, input, output)
    }

    constructor ()
      ensures State() == Shared(false, map[], 0, [], [])
    {
      closed, requests, pendingReads, input, output := false, map[], 0, [], [];
    }

    method Write(buf: Bytes) returns (id: int, error: bool)
      modifies this
      ensures State() == AfterWrite(old(State()), buf)
      ensures error <==> !Accepts(old(State()), buf)
      ensures id == if error then -1 else 256 * (buf[0] as int) + buf[1] as int
      ensures requests == if error then old(requests) else old(requests)[256 * (buf[0] as int) + buf[1] as int := None]
    {
      if |buf| < 2 {
        return -1, true;
      }
      id := Word(buf[0], buf[1]);
      if closed {
        return -1, true;
      }
      output := output + Frame(buf);
      requests := requests[id := None];
      error := false;
    }

    /** The unlocked part of a round of `on_read`: nothing when there is no whole message to take. */
    method TakeFrame() returns (message: Option<Bytes>)
      modifies `input
      ensures message == if HasFrame(old(input)) then Some(FirstFrame(old(input))) else None
      ensures input == if HasFrame(old(input)) then BehindFrame(old(input)) else old(input)
    {
      if |input| < 2 {
        return None;
      }
      var length := Word(input[0], input[1]);
      if length < 2 {
        return None;
      }
      if |input| < 2 + length {
        return None;
      }
      message := Some(input[2..2 + length]);
      input := input[2 + length..];
    }

    /** The locked part of the round. */
    method StoreReply(message: Bytes)
      requires |message| >= 2
      modifies `requests
      ensures requests == Stored(old(requests), message)
      ensures var id := 256 * (message[0] as int) + message[1] as int;
              requests == if id in old(requests) then old(requests)[id := Some(ReadResult(message, None))] else old(requests)
    {
      var id := Word(message[0], message[1]);
      if id in requests {
        requests := requests[id := Some(ReadResult(message, None))];
      }
    }

    /** The locked part of `on_event` for an end of stream or an error. */
    method Fail(order: seq<int>, errorOf: int -> string)
      requires Lists(order, requests)
      modifies this
      ensures State() == old(State()).(closed := true, requests := Failed(old(requests), errorOf))
    {
      closed := true;
      requests := FailAll(requests, order, errorOf);
    }

    /** Entering `read`: a closed connection is not waited for. */
    method EnterRead() returns (entered: bool)
      modifies this
      ensures entered == !old(closed)
      ensures State() == if entered then old(State()).(pendingReads := old(pendingReads) + 1) else old(State())
    {
      if closed {
        return false;
      }
      pendingReads := pendingReads + 1;
      entered := true;
    }

    /** Leaving the wait with a result. */
    method TakeResult(id: int) returns (result: ReadResult)
      requires Answered(requests, id)
      modifies this
      ensures Some(result) == old(requests)[id]
      ensures State() == old(State()).(requests := old(requests) - {id}, pendingReads := old(pendingReads) - 1)
    {
      result := requests[id].value;
      requests := requests - {id};
      pendingReads := pendingReads - 1;
    }
  }
}

/** A framed connection (upstream/src/dns_framed.cpp) as a protocol: any number of writers and readers, the thread of the
    event loop and the pool take atomic steps in any order. A step is a stretch between two points where the source
    takes or gives up a lock. */
module FramedProtocol {
  import opened Text
  import opened TcpFraming
  import opened FramedConnection

  datatype What = What(connected: bool, eof: bool, error: bool)

  type Message = m: Bytes | |m| >= 2 witness [0, 0]

  /** Where the event thread stands: between callbacks, in the loop of `on_read`, with or without a message taken from the
      input and not yet stored, or in `on_event`, before and after it has removed the connection from the pool. */
  datatype Loop = Idle | Reading | Holding(message: Message) | Handling(what: What) | Removed(what: What)

  datatype Reader = Waiting(id: int) | TimedOut | Leaving

  datatype Pool = Pool(pending: bool, connected: nat)

  /** A result handed to a reader, for the request at this place among those written. */
  datatype Consumed = Consumed(request: nat, result: ReadResult)

  /** What happened so far: the requests accepted and how many messages had been through the table before each; for each
      id in the table, which request it stands for; the bytes received and the messages that went through the table, found
      there or not; the results handed out; whether the table was filled with errors. */
  datatype History = History(written: seq<Bytes>, before: seq<nat>, owner: map<int, nat>,
                             received: Bytes, stored: seq<Bytes>, log: seq<Consumed>, failed: bool)

  datatype Protocol = Protocol(shared: Shared, loop: Loop, readers: map<nat, Reader>, pool: Pool, past: History)

  datatype Step =
    | Write(buf: Bytes)
    | Receive(bytes: Bytes)
    | OnRead
    | TakeFrame
    | StoreReply
    | ReadDone
    | OnEvent(what: What)
    | AddConnected
    | RemoveFromAll
    | Fail(errorOf: int -> string)
    | EventDone
    | EnterRead(reader: nat, id: int)
    | Wake(reader: nat)
    | Expire(reader: nat)
    | GiveUp(reader: nat)
    | Leave(reader: nat)

  const Start := Protocol(Shared(false, map[], 0, [], []), Idle, map[], Pool(true, 0),
                          History([], [], map[], [], [], [], false))

  predicate WaitsFor(s: Protocol, reader: nat, id: int) {
    reader in s.readers && s.readers[reader] == Waiting(id)
  }

  predicate Enabled(s: Protocol, step: Step) {
    match step
    case Write(_) => true
    case Receive(_) => s.loop.Idle?
    case OnRead => s.loop.Idle?
    case TakeFrame => s.loop.Reading? && HasFrame(s.shared.input)
    case StoreReply => s.loop.Holding?
    case ReadDone => s.loop.Reading? && !HasFrame(s.shared.input)
    case OnEvent(_) => s.loop.Idle?
    case AddConnected => s.loop.Handling? && s.loop.what.connected
    case RemoveFromAll => s.loop.Handling? && !s.loop.what.connected && (s.loop.what.eof || s.loop.what.error)
    case Fail(_) => s.loop.Removed?
    case EventDone => s.loop.Handling? && !s.loop.what.connected && !s.loop.what.eof && !s.loop.what.error
    case EnterRead(reader, _) => reader !in s.readers
    case Wake(reader) => IsWaiting(s, reader) && Answered(s.shared.requests, s.readers[reader].id)
    case Expire(reader) => IsWaiting(s, reader) && !Answered(s.shared.requests, s.readers[reader].id)
    case GiveUp(reader) => reader in s.readers && s.readers[reader].TimedOut?
    case Leave(reader) => reader in s.readers && s.readers[reader].Leaving?
  }

  predicate IsWaiting(s: Protocol, reader: nat) {
    reader in s.readers && s.readers[reader].Waiting?
  }

  /** The errors given to the requests left: one text at the end of the stream, otherwise what the library reports. */
  function Errors(what: What, errorOf: int -> string): int -> string {
    if what.eof then _ => UNEXPECTED_EOF else errorOf
  }

  // ----- the steps --------------------------------------------------------------------------------------------

  function WriteStep(s: Protocol, buf: Bytes): Protocol {
    var shared := AfterWrite(s.shared, buf);
    if Accepts(s.shared, buf)
    then s.(shared := shared,
            past := s.past.(written := s.past.written + [buf],
                            before := s.past.before + [|s.past.stored|],
                            owner := s.past.owner[IdOf(buf) := |s.past.written|]))
    else s.(shared := shared)
  }

  function TakeStep(s: Protocol): Protocol
    requires HasFrame(s.shared.input)
  {
    s.(shared := s.shared.(input := BehindFrame(s.shared.input)), loop := Holding(FirstFrame(s.shared.input)))
  }

  function StoreStep(s: Protocol): Protocol
    requires s.loop.Holding?
  {
    var message := s.loop.message;
    s.(shared := s.shared.(requests := Stored(s.shared.requests, message)), loop := Reading,
       past := s.past.(stored := s.past.stored + [message]))
  }

  function Closed(s: Protocol): Protocol {
    s.(shared := s.shared.(closed := true), pool := Pool(false, 0))
  }

  function FailStep(s: Protocol, errorOf: int -> string): Protocol
    requires s.loop.Removed?
  {
    s.(loop := Idle,
       shared := s.shared.(closed := true, requests := Failed(s.shared.requests, Errors(s.loop.what, errorOf))),
       past := s.past.(failed := true))
  }

  function WakeStep(s: Protocol, reader: nat): Protocol
    requires IsWaiting(s, reader) && Answered(s.shared.requests, s.readers[reader].id)
  {
    var id := s.readers[reader].id;
    var taken := if id in s.past.owner then [Consumed(s.past.owner[id], s.shared.requests[id].value)] else [];
    s.(shared := s.shared.(requests := s.shared.requests - {id}, pendingReads := s.shared.pendingReads - 1),
       readers := s.readers - {reader},
       past := s.past.(owner := s.past.owner - {id}, log := s.past.log + taken))
  }

  function Apply(s: Protocol, step: Step): Protocol
    requires Enabled(s, step)
  {
    match step
    case Write(buf) => WriteStep(s, buf)
    case Receive(bytes) => s.(shared := s.shared.(input := s.shared.input + bytes),
                              past := s.past.(received := s.past.received + bytes))
    case OnRead => if s.shared.closed then s else s.(loop := Reading)
    case TakeFrame => TakeStep(s)
    case StoreReply => StoreStep(s)
    case ReadDone => s.(loop := Idle)
    case OnEvent(what) => if s.shared.closed then s else s.(loop := Handling(what))
    case AddConnected => s.(loop := Handling(s.loop.what.(connected := false)), pool := Pool(false, s.pool.connected + 1))
    case RemoveFromAll => Closed(s).(loop := Removed(s.loop.what))
    case Fail(errorOf) => FailStep(s, errorOf)
    case EventDone => s.(loop := Idle)
    case EnterRead(reader, id) =>
      if s.shared.closed then s
      else s.(shared := s.shared.(pendingReads := s.shared.pendingReads + 1), readers := s.readers[reader := Waiting(id)])
    case Wake(reader) => WakeStep(s, reader)
    case Expire(reader) => s.(readers := s.readers[reader := TimedOut])
    case GiveUp(reader) => Closed(s).(readers := s.readers[reader := Leaving])
    case Leave(reader) => s.(shared := s.shared.(pendingReads := s.shared.pendingReads - 1),
                             readers := s.readers - {reader})
  }

  // ----- runs -------------------------------------------------------------------------------------------------

  /** Every step of the run can be taken where it is taken. */
  ghost predicate Runs(s: Protocol, steps: seq<Step>)
    decreases |steps|
  {
    |steps| == 0 || (Enabled(s, steps[0]) && Runs(Apply(s, steps[0]), steps[1..]))
  }

  ghost function End(s: Protocol, steps: seq<Step>): Protocol
    requires Runs(s, steps)
    decreases |steps|
  {
    if |steps| == 0 then s else End(Apply(s, steps[0]), steps[1..])
  }

  lemma Prepend(s: Protocol, step: Step, steps: seq<Step>)
    requires Enabled(s, step) && Runs(Apply(s, step), steps)
    ensures Runs(s, [step] + steps) && End(s, [step] + steps) == End(Apply(s, step), steps)
  {
    assert ([step] + steps)[1..] == steps;
  }

  // ----- what every state keeps -------------------------------------------------------------------------------

  /** Every id in the table stands for an accepted request of that id. */
  ghost predicate Owned(r: Requests, past: History) {
    && past.owner.Keys == r.Keys && |past.before| == |past.written|
    && (forall i :: 0 <= i < |past.written| ==> |past.written[i]| >= 2 && past.before[i] <= |past.stored|)
    && (forall id :: id in past.owner ==>
          past.owner[id] < |past.written| && IdOf(past.written[past.owner[id]]) == id)
  }

  /** A reply is a message that starts with the two bytes its request starts with, and was stored after the request was
      written; an error was given by a failure of the connection. */
  ghost predicate Genuine(result: ReadResult, request: nat, past: History) {
    && request < |past.written| == |past.before| && |past.written[request]| >= 2
    && (result.error.Some? ==> past.failed)
    && (result.error.None? ==>
          && |result.reply| >= 2 && result.reply[..2] == past.written[request][..2]
          && StoredSince(result.reply, past.stored, past.before[request]))
  }

  ghost predicate StoredSince(message: Bytes, stored: seq<Bytes>, n: nat) {
    exists k :: n <= k < |stored| && stored[k] == message
  }

  ghost predicate ResultsGenuine(r: Requests, past: History) {
    forall id :: id in r && id in past.owner && r[id].Some? ==> Genuine(r[id].value, past.owner[id], past)
  }

  ghost predicate LogGenuine(past: History) {
    forall i :: 0 <= i < |past.log| ==> Genuine(past.log[i].result, past.log[i].request, past)
  }

  /** No request is handed out twice, and none that was handed out is in the table. */
  ghost predicate Once(past: History) {
    && (forall i, j :: 0 <= i < j < |past.log| ==> past.log[i].request != past.log[j].request)
    && (forall i, id :: 0 <= i < |past.log| && id in past.owner ==> past.log[i].request != past.owner[id])
  }

  ghost predicate AllAnswered(r: Requests) {
    forall id :: id in r ==> r[id].Some?
  }

  /** After a failure the connection is closed for good and no request is left without a result. */
  ghost predicate FailedIsFinal(s: Protocol) {
    && (s.past.failed ==> s.shared.closed && s.loop.Idle? && AllAnswered(s.shared.requests))
    && (s.loop.Removed? ==> s.shared.closed)
  }

  /** The messages taken from the stream: those that went through the table, and the one on its way there. */
  ghost function Taken(s: Protocol): seq<Bytes> {
    s.past.stored + Held(s.loop)
  }

  function Held(loop: Loop): seq<Bytes> {
    if loop.Holding? then [loop.message] else []
  }

  ghost predicate Inv(s: Protocol) {
    && Owned(s.shared.requests, s.past)
    && ResultsGenuine(s.shared.requests, s.past)
    && LogGenuine(s.past)
    && Once(s.past)
    && FailedIsFinal(s)
    && s.shared.pendingReads == |s.readers|
    && Accounts(Taken(s), s.shared.input, s.past.received)
    && s.shared.output == Framed(s.past.written, 0)
  }

  // ----- each step keeps it -----------------------------------------------------------------------------------

  /** More messages, or a failure, do not make a genuine result less so. */
  lemma StillGenuine(result: ReadResult, request: nat, past: History, past': History)
    requires Genuine(result, request, past)
    requires |past'.written| == |past'.before| && past.written <= past'.written && past.before <= past'.before
    requires past.stored <= past'.stored && (past.failed ==> past'.failed)
    ensures Genuine(result, request, past')
  {
    assert past'.written[request] == past.written[request] && past'.before[request] == past.before[request];
    if result.error.None? {
      var k :| past.before[request] <= k < |past.stored| && past.stored[k] == result.reply;
      assert past'.stored[k] == result.reply;
    }
  }

  /** The history grows, with the same results handed out. */
  ghost predicate Grows(past: History, past': History) {
    && |past'.written| == |past'.before| && past.written <= past'.written && past.before <= past'.before
    && past.stored <= past'.stored && (past.failed ==> past'.failed) && past'.log == past.log
  }

  lemma LogStillGenuine(past: History, past': History)
    requires LogGenuine(past) && Grows(past, past')
    ensures LogGenuine(past')
  {
    forall i | 0 <= i < |past'.log|
      ensures Genuine(past'.log[i].result, past'.log[i].request, past')
    {
      StillGenuine(past.log[i].result, past.log[i].request, past, past');
    }
  }

  lemma ResultsStillGenuine(r: Requests, past: History, past': History)
    requires ResultsGenuine(r, past) && Grows(past, past') && past'.owner == past.owner
    ensures ResultsGenuine(r, past')
  {
    forall id | id in r && id in past'.owner && r[id].Some?
      ensures Genuine(r[id].value, past'.owner[id], past')
    {
      StillGenuine(r[id].value, past.owner[id], past, past');
    }
  }

  // Write

  lemma WriteOwned(r: Requests, past: History, buf: Bytes)
    requires Owned(r, past) && |buf| >= 2
    ensures Owned(r[IdOf(buf) := None],
                  past.(written := past.written + [buf], before := past.before + [|past.stored|],
                        owner := past.owner[IdOf(buf) := |past.written|]))
  {
  }

  lemma WriteGenuine(r: Requests, past: History, past': History, id: int, n: nat)
    requires ResultsGenuine(r, past) && Grows(past, past') && past'.owner == past.owner[id := n]
    ensures ResultsGenuine(r[id := None], past')
  {
    forall q | q in r && q != id && q in past.owner && r[q].Some?
      ensures Genuine(r[q].value, past.owner[q], past')
    {
      StillGenuine(r[q].value, past.owner[q], past, past');
    }
  }

  lemma WriteOnce(past: History, past': History, id: int)
    requires Once(past) && LogGenuine(past) && past'.log == past.log && past'.owner == past.owner[id := |past.written|]
    ensures Once(past')
  {
    assert forall i :: 0 <= i < |past.log| ==> past.log[i].request < |past.written|;
  }

  lemma {:induction false} FramedAppend(list: seq<Bytes>, p: Bytes, n: nat)
    requires n <= |list|
    ensures Framed(list + [p], n) == Framed(list, n) + Frame(p)
    decreases |list| - n
  {
    var longer := list + [p];
    if n == |list| {
      assert Framed(longer, n) == Frame(longer[n]) + Framed(longer, n + 1);
    } else {
      FramedAppend(list, p, n + 1);
      Regroup(Frame(list[n]), Framed(list, n + 1), Frame(p));
    }
  }

  lemma WriteKeeps(s: Protocol, buf: Bytes)
    requires Inv(s)
    ensures Inv(WriteStep(s, buf))
  {
    if Accepts(s.shared, buf) {
      var s' := WriteStep(s, buf);
      WriteOwned(s.shared.requests, s.past, buf);
      WriteGenuine(s.shared.requests, s.past, s'.past, IdOf(buf), |s.past.written|);
      LogStillGenuine(s.past, s'.past);
      WriteOnce(s.past, s'.past, IdOf(buf));
      FramedAppend(s.past.written, buf, 0);
    }
  }

  // TakeFrame and StoreReply

  lemma TakeAccounts(taken: seq<Bytes>, input: Bytes, received: Bytes)
    requires Accounts(taken, input, received) && HasFrame(input)
    ensures Accounts(taken + [FirstFrame(input)], BehindFrame(input), received)
  {
    Regroup(taken, [FirstFrame(input)], Payloads(BehindFrame(input)));
  }

  lemma TakeKeeps(s: Protocol)
    requires Inv(s) && s.loop.Reading? && HasFrame(s.shared.input)
    ensures Inv(TakeStep(s))
  {
    assert Taken(s) == s.past.stored;
    TakeAccounts(s.past.stored, s.shared.input, s.past.received);
  }

  lemma StoreGenuine(r: Requests, past: History, past': History, message: Message)
    requires Owned(r, past) && ResultsGenuine(r, past) && past' == past.(stored := past.stored + [message])
    ensures ResultsGenuine(Stored(r, message), past')
  {
    ResultsStillGenuine(r, past, past');
    if IdOf(message) in r {
      assert past'.stored[|past.stored|] == message;
      IdsAreBytes(message, past.written[past.owner[IdOf(message)]]);
    }
  }

  lemma StoreKeeps(s: Protocol)
    requires Inv(s) && s.loop.Holding?
    ensures Inv(StoreStep(s))
  {
    var s' := StoreStep(s);
    StoreGenuine(s.shared.requests, s.past, s'.past, s.loop.message);
    LogStillGenuine(s.past, s'.past);
    assert Taken(s') == Taken(s);
  }

  // Fail

  lemma FailGenuine(r: Requests, past: History, errorOf: int -> string)
    requires Owned(r, past) && ResultsGenuine(r, past)
    ensures ResultsGenuine(Failed(r, errorOf), past.(failed := true))
  {
    ResultsStillGenuine(r, past, past.(failed := true));
  }

  lemma FailKeeps(s: Protocol, errorOf: int -> string)
    requires Inv(s) && s.loop.Removed?
    ensures Inv(FailStep(s, errorOf))
  {
    var s' := FailStep(s, errorOf);
    FailGenuine(s.shared.requests, s.past, Errors(s.loop.what, errorOf));
    LogStillGenuine(s.past, s'.past);
    FailOwned(s.shared.requests, s.past, Errors(s.loop.what, errorOf));
    assert Taken(s') == Taken(s);
  }

  lemma FailOwned(r: Requests, past: History, errorOf: int -> string)
    requires Owned(r, past) && Once(past)
    ensures Owned(Failed(r, errorOf), past.(failed := true)) && Once(past.(failed := true))
    ensures AllAnswered(Failed(r, errorOf))
  {
    assert Failed(r, errorOf).Keys == r.Keys;
  }

  // Wake

  lemma WakeOwned(r: Requests, past: History, past': History, id: int)
    requires Owned(r, past) && past'.owner == past.owner - {id}
    requires past'.written == past.written && past'.before == past.before && past'.stored == past.stored
    ensures Owned(r - {id}, past')
  {
  }

  lemma WakeGenuine(r: Requests, past: History, past': History, id: int)
    requires ResultsGenuine(r, past) && past' == past.(owner := past.owner - {id}, log := past'.log)
    ensures ResultsGenuine(r - {id}, past')
  {
    forall q | q in r - {id} && q in past'.owner && r[q].Some?
      ensures Genuine(r[q].value, past'.owner[q], past')
    {
      assert Genuine(r[q].value, past.owner[q], past);
    }
  }

  lemma WakeLog(past: History, past': History, id: int, result: ReadResult)
    requires id in past.owner && LogGenuine(past) && Genuine(result, past.owner[id], past)
    requires past' == past.(owner := past.owner - {id}, log := past.log + [Consumed(past.owner[id], result)])
    ensures LogGenuine(past')
  {
    forall i | 0 <= i < |past'.log|
      ensures Genuine(past'.log[i].result, past'.log[i].request, past')
    {
      if i < |past.log| {
        assert Genuine(past.log[i].result, past.log[i].request, past);
      }
    }
  }

  /** Two ids never stand for the same request. */
  lemma WakeOnce(r: Requests, past: History, past': History, id: int, result: ReadResult)
    requires Owned(r, past) && Once(past) && id in past.owner
    requires past' == past.(owner := past.owner - {id}, log := past.log + [Consumed(past.owner[id], result)])
    ensures Once(past')
  {
    forall q | q in past'.owner
      ensures past'.owner[q] != past.owner[id]
    {
      assert IdOf(past.written[past.owner[q]]) == q && IdOf(past.written[past.owner[id]]) == id;
    }
  }

  lemma WakeKeeps(s: Protocol, reader: nat)
    requires Inv(s) && IsWaiting(s, reader) && Answered(s.shared.requests, s.readers[reader].id)
    ensures Inv(WakeStep(s, reader))
  {
    var s', id := WakeStep(s, reader), s.readers[reader].id;
    var result := s.shared.requests[id].value;
    WakeOwned(s.shared.requests, s.past, s'.past, id);
    WakeGenuine(s.shared.requests, s.past, s'.past, id);
    WakeLog(s.past, s'.past, id, result);
    WakeOnce(s.shared.requests, s.past, s'.past, id, result);
  }

  // The others

  lemma ReceiveKeeps(s: Protocol, bytes: Bytes)
    requires Inv(s) && s.loop.Idle?
    ensures Inv(Apply(s, Receive(bytes)))
  {
    PushKeeps(Taken(s), s.shared.input, s.past.received, bytes);
    LogStillGenuine(s.past, s.past.(received := s.past.received + bytes));
    ResultsStillGenuine(s.shared.requests, s.past, s.past.(received := s.past.received + bytes));
  }

  lemma ReaderKeeps(s: Protocol, step: Step)
    requires Inv(s) && Enabled(s, step) && (step.EnterRead? || step.Expire? || step.GiveUp? || step.Leave?)
    ensures Inv(Apply(s, step))
  {
  }

  lemma LoopKeeps(s: Protocol, step: Step)
    requires Inv(s) && Enabled(s, step)
    requires step.OnRead? || step.ReadDone? || step.OnEvent? || step.AddConnected? || step.RemoveFromAll? || step.EventDone?
    ensures Inv(Apply(s, step))
  {
  }

  lemma StepKeeps(s: Protocol, step: Step)
    requires Inv(s) && Enabled(s, step)
    ensures Inv(Apply(s, step))
  {
    match step
    case Write(buf) => WriteKeeps(s, buf);
    case Receive(bytes) => ReceiveKeeps(s, bytes);
    case TakeFrame => TakeKeeps(s);
    case StoreReply => StoreKeeps(s);
    case Fail(errorOf) => FailKeeps(s, errorOf);
    case Wake(reader) => WakeKeeps(s, reader);
    case EnterRead(_, _) => ReaderKeeps(s, step);
    case Expire(_) => ReaderKeeps(s, step);
    case GiveUp(_) => ReaderKeeps(s, step);
    case Leave(_) => ReaderKeeps(s, step);
    case _ => LoopKeeps(s, step);
  }

  // ----- whole runs -------------------------------------------------------------------------------------------

  lemma {:induction false} RunKeeps(s: Protocol, steps: seq<Step>)
    requires Inv(s) && Runs(s, steps)
    ensures Inv(End(s, steps))
    decreases |steps|
  {
    if |steps| > 0 {
      StepKeeps(s, steps[0]);
      RunKeeps(Apply(s, steps[0]), steps[1..]);
    }
  }

  /** After every run, results were handed out for different requests, each of them one that answers its request, and
      every reply still in the table starts with the id it is stored under. */
  lemma ResultsAreGenuine(steps: seq<Step>)
    requires Runs(Start, steps)
    ensures var s := End(Start, steps);
            && (forall i, j :: 0 <= i < j < |s.past.log| ==> s.past.log[i].request != s.past.log[j].request)
            && (forall i :: 0 <= i < |s.past.log| ==> Genuine(s.past.log[i].result, s.past.log[i].request, s.past))
            && (forall id :: Answered(s.shared.requests, id) && s.shared.requests[id].value.error.None? ==>
                  |s.shared.requests[id].value.reply| >= 2 && id == IdOf(s.shared.requests[id].value.reply))
  {
    StartHolds();
    RunKeeps(Start, steps);
    var s := End(Start, steps);
    forall id | Answered(s.shared.requests, id) && s.shared.requests[id].value.error.None?
      ensures |s.shared.requests[id].value.reply| >= 2 && id == IdOf(s.shared.requests[id].value.reply)
    {
      ReplyHasItsId(s, id);
    }
  }

  lemma ReplyHasItsId(s: Protocol, id: int)
    requires Inv(s) && Answered(s.shared.requests, id) && s.shared.requests[id].value.error.None?
    ensures |s.shared.requests[id].value.reply| >= 2 && id == IdOf(s.shared.requests[id].value.reply)
  {
    IdsAreBytes(s.shared.requests[id].value.reply, s.past.written[s.past.owner[id]]);
  }

  lemma StartHolds()
    ensures Inv(Start)
  {
    assert Accounts([], [], []);
  }

  lemma ClosedStep(s: Protocol, step: Step)
    requires s.shared.closed && Enabled(s, step)
    ensures var s' := Apply(s, step);
            && s'.shared.closed && s'.past.written == s.past.written && s'.shared.output == s.shared.output
            && s'.shared.requests.Keys <= s.shared.requests.Keys
  {
  }

  /** A closed connection stays closed and takes no request: nothing is written or added to the table any more. */
  lemma {:induction false} ClosedForever(s: Protocol, steps: seq<Step>)
    requires s.shared.closed && Runs(s, steps)
    ensures var s' := End(s, steps);
            && s'.shared.closed && s'.past.written == s.past.written && s'.shared.output == s.shared.output
            && s'.shared.requests.Keys <= s.shared.requests.Keys
    decreases |steps|
  {
    if |steps| > 0 {
      ClosedStep(s, steps[0]);
      ClosedForever(Apply(s, steps[0]), steps[1..]);
    }
  }

  /** The end of the stream or an error leaves every reply as it is, and no request without a result. */
  lemma FailureAnswersTheRest(s: Protocol, errorOf: int -> string)
    requires s.loop.Removed?
    ensures var r, r' := s.shared.requests, FailStep(s, errorOf).shared.requests;
            && r'.Keys == r.Keys && AllAnswered(r')
            && (forall id :: Answered(r, id) ==> r'[id] == r[id])
            && (forall id :: id in r && !Answered(r, id) ==> r'[id].value.error.Some?)
  {
  }

  /** From then on every request in the table keeps its result until it is handed out, so no reader of it waits. */
  lemma {:induction false} FailedForever(s: Protocol, steps: seq<Step>)
    requires Inv(s) && s.past.failed && Runs(s, steps)
    ensures var s' := End(s, steps);
            && s'.past.failed && AllAnswered(s'.shared.requests)
            && (forall id :: id in s'.shared.requests ==>
                  id in s.shared.requests && s'.shared.requests[id] == s.shared.requests[id])
            && (forall reader, id :: WaitsFor(s', reader, id) && id in s'.shared.requests ==> Enabled(s', Wake(reader)))
    decreases |steps|
  {
    if |steps| > 0 {
      var next := Apply(s, steps[0]);
      StepKeeps(s, steps[0]);
      FailedStep(s, steps[0]);
      FailedForever(next, steps[1..]);
    }
  }

  lemma FailedStep(s: Protocol, step: Step)
    requires Inv(s) && s.past.failed && Enabled(s, step)
    ensures var s' := Apply(s, step);
            && s'.past.failed
            && (forall id :: id in s'.shared.requests ==>
                  id in s.shared.requests && s'.shared.requests[id] == s.shared.requests[id])
  {
  }

  /** A result leaves the table by being handed out; otherwise only a new request of the same id, or another message of
      that id, takes its place. */
  lemma ResultsStay(s: Protocol, step: Step, id: int)
    requires Inv(s) && Enabled(s, step) && Answered(s.shared.requests, id)
    ensures var s' := Apply(s, step);
            || (id in s'.shared.requests && s'.shared.requests[id] == s.shared.requests[id] &&
                s'.past.owner[id] == s.past.owner[id])
            || (id !in s'.shared.requests &&
                s'.past.log == s.past.log + [Consumed(s.past.owner[id], s.shared.requests[id].value)])
            || (step.Write? && Accepts(s.shared, step.buf) && IdOf(step.buf) == id)
            || (step.StoreReply? && IdOf(s.loop.message) == id)
  {
  }

  /** The message may have left the stream before its request was written: whatever is written while the event thread holds
      a message of the same id is answered by it. */
  lemma HeldMessageAnswers(s: Protocol, buf: Bytes)
    requires s.loop.Holding? && Accepts(s.shared, buf) && IdOf(buf) == IdOf(s.loop.message)
    ensures Enabled(WriteStep(s, buf), StoreReply)
    ensures var s' := StoreStep(WriteStep(s, buf));
            s'.shared.requests[IdOf(buf)] == Some(ReadResult(s.loop.message, None)) && Taken(s') == Taken(s)
  {
  }

  // ----- the stream in both directions --------------------------------------------------------------------------

  /** What the other side reads is the accepted requests, exactly when the size of each fits its 16 bits. */
  lemma RequestsArrive(steps: seq<Step>)
    requires Runs(Start, steps)
    ensures var s := End(Start, steps); Payloads(s.shared.output) == s.past.written <==> AllFit(s.past.written, 0)
  {
    StartHolds();
    RunKeeps(Start, steps);
    var written := End(Start, steps).past.written;
    FramesParseBack(written, 0);
    assert written[0..] == written;
  }

  /** A size below two in front of the input. */
  predicate Stalled(input: Bytes) {
    |input| >= 2 && SizeAt(input) < 2
  }

  /** A message too short for an id is never passed: no message behind it is taken, whatever else arrives. */
  lemma {:induction false} StalledForever(s: Protocol, steps: seq<Step>)
    requires Stalled(s.shared.input) && Runs(s, steps)
    ensures Stalled(End(s, steps).shared.input) && Taken(End(s, steps)) == Taken(s)
    decreases |steps|
  {
    if |steps| > 0 {
      StalledStep(s, steps[0]);
      StalledForever(Apply(s, steps[0]), steps[1..]);
    }
  }

  lemma StalledStep(s: Protocol, step: Step)
    requires Stalled(s.shared.input) && Enabled(s, step)
    ensures Stalled(Apply(s, step).shared.input) && Taken(Apply(s, step)) == Taken(s)
  {
    if step.StoreReply? {
      assert Taken(Apply(s, step)) == s.past.stored + [s.loop.message];
    }
  }

  // ----- the pool -----------------------------------------------------------------------------------------------

  /** A closed connection is in none of the lists of the pool. */
  predicate OnlyOpenPooled(s: Protocol) {
    s.shared.closed ==> !s.pool.pending && s.pool.connected == 0
  }

  /** A step breaks this exactly when it adds a connection that was closed since the event thread looked. */
  lemma PooledStep(s: Protocol, step: Step)
    requires Inv(s) && OnlyOpenPooled(s) && Enabled(s, step)
    ensures OnlyOpenPooled(Apply(s, step)) <==> !(step.AddConnected? && s.shared.closed)
  {
  }

  /** And such a step can come: a reader gives up between the look and the addition. */
  lemma ClosedCanBePooled()
    ensures var steps := [EnterRead(0, 7), OnEvent(What(true, false, false)), Expire(0), GiveUp(0), AddConnected];
            Runs(Start, steps) && End(Start, steps).shared.closed && End(Start, steps).pool.connected == 1
  {
    var what := What(true, false, false);
    var s1 := Apply(Start, EnterRead(0, 7));
    var s2 := Apply(s1, OnEvent(what));
    var s3 := Apply(s2, Expire(0));
    var s4 := Apply(s3, GiveUp(0));
    Prepend(s4, AddConnected, []);
    Prepend(s3, GiveUp(0), [AddConnected]);
    Prepend(s2, Expire(0), [GiveUp(0), AddConnected]);
    Prepend(s1, OnEvent(what), [Expire(0), GiveUp(0), AddConnected]);
    Prepend(Start, EnterRead(0, 7), [OnEvent(what), Expire(0), GiveUp(0), AddConnected]);
  }
}

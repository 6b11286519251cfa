/** Requests that a closed connection (upstream/src/dns_framed.cpp) still holds without a result. A failure answers them. A
    reader that gives up closes the connection too, and then nothing does. */
module FramedAbandoned {
  import opened Text
  import opened FramedConnection
  import opened FramedProtocol

  predicate Unanswered(s: Protocol, id: int) {
    id in s.shared.requests && s.shared.requests[id].None?
  }

  /** The event thread is about to fill the table with errors. */
  predicate FailurePending(loop: Loop) {
    loop.Removed? || (loop.Handling? && (loop.what.eof || loop.what.error))
  }

  /** The loop of `on_read` will take a message of this id from the input. */
  predicate IsAhead(input: Bytes, id: int) {
    HasFrame(input) && (IdOf(FirstFrame(input)) == id || IsAhead(BehindFrame(input), id))
  }

  /** The event thread is past the test for a closed connection, and on its way to a result for the id. */
  predicate ResultAhead(s: Protocol, id: int) {
    || FailurePending(s.loop)
    || (s.loop.Holding? && IdOf(s.loop.message) == id)
    || ((s.loop.Reading? || s.loop.Holding?) && IsAhead(s.shared.input, id))
  }

  ghost predicate Abandoned(s: Protocol, id: int) {
    s.shared.closed && Unanswered(s, id) && !ResultAhead(s, id)
  }

  /** A run after which the request has a result. */
  ghost predicate Answers(s: Protocol, steps: seq<Step>, id: int) {
    Runs(s, steps) && Answered(End(s, steps).shared.requests, id)
  }

  // ----- nothing answers an abandoned request -----------------------------------------------------------------

  lemma AbandonedStep(s: Protocol, step: Step, id: int)
    requires Abandoned(s, id) && Enabled(s, step)
    ensures Abandoned(Apply(s, step), id)
  {
  }

  /** It stays in the table without a result for good. */
  lemma {:induction false} AbandonedForever(s: Protocol, steps: seq<Step>, id: int)
    requires Abandoned(s, id) && Runs(s, steps)
    ensures Abandoned(End(s, steps), id)
    decreases |steps|
  {
    if |steps| > 0 {
      AbandonedStep(s, steps[0], id);
      AbandonedForever(Apply(s, steps[0]), steps[1..], id);
    }
  }

  // ----- every other one can be answered ------------------------------------------------------------------------

  lemma FailureAnswers(s: Protocol, id: int) returns (steps: seq<Step>)
    requires Unanswered(s, id) && s.loop.Removed?
    ensures Answers(s, steps, id)
  {
    var fail := Fail(_ => "");
    steps := [fail] + [];
    Prepend(s, fail, []);
  }

  lemma EventAnswers(s: Protocol, id: int) returns (steps: seq<Step>)
    requires Unanswered(s, id) && s.loop.Handling? && (s.loop.what.eof || s.loop.what.error)
    ensures Answers(s, steps, id)
    decreases s.loop.what.connected
  {
    var step := if s.loop.what.connected then AddConnected else RemoveFromAll;
    var next := Apply(s, step);
    if s.loop.what.connected {
      steps := EventAnswers(next, id);
    } else {
      steps := FailureAnswers(next, id);
    }
    Prepend(s, step, steps);
    steps := [step] + steps;
  }

  lemma HoldingAnswers(s: Protocol, id: int) returns (steps: seq<Step>)
    requires Unanswered(s, id) && s.loop.Holding? && IdOf(s.loop.message) == id
    ensures Answers(s, steps, id)
  {
    steps := [StoreReply] + [];
    Prepend(s, StoreReply, []);
  }

  lemma {:induction false} ReadingAnswers(s: Protocol, id: int) returns (steps: seq<Step>)
    requires Unanswered(s, id) && s.loop.Reading? && IsAhead(s.shared.input, id)
    ensures Answers(s, steps, id)
    decreases |s.shared.input|
  {
    var held := Apply(s, TakeFrame);
    if IdOf(FirstFrame(s.shared.input)) == id {
      steps := HoldingAnswers(held, id);
    } else {
      var next := Apply(held, StoreReply);
      steps := ReadingAnswers(next, id);
      Prepend(held, StoreReply, steps);
      steps := [StoreReply] + steps;
    }
    Prepend(s, TakeFrame, steps);
    steps := [TakeFrame] + steps;
  }

  lemma StoringAnswers(s: Protocol, id: int) returns (steps: seq<Step>)
    requires Unanswered(s, id) && s.loop.Holding? && (IdOf(s.loop.message) == id || IsAhead(s.shared.input, id))
    ensures Answers(s, steps, id)
  {
    if IdOf(s.loop.message) == id {
      steps := HoldingAnswers(s, id);
    } else {
      steps := ReadingAnswers(Apply(s, StoreReply), id);
      Prepend(s, StoreReply, steps);
      steps := [StoreReply] + steps;
    }
  }

  /** A request left in a closed connection can still get a result exactly when the event thread is already past its look
      at the connection, with a failure to report or with a message of that id before it. */
  lemma AnsweredAfterClosing(s: Protocol, id: int)
    requires s.shared.closed && Unanswered(s, id)
    ensures (exists steps :: Answers(s, steps, id)) <==> ResultAhead(s, id)
  {
    if ResultAhead(s, id) {
      var steps;
      if s.loop.Removed? {
        steps := FailureAnswers(s, id);
      } else if s.loop.Handling? {
        steps := EventAnswers(s, id);
      } else if s.loop.Holding? {
        steps := StoringAnswers(s, id);
      } else {
        steps := ReadingAnswers(s, id);
      }
      assert Answers(s, steps, id);
    } else {
      forall steps | Runs(s, steps)
        ensures !Answers(s, steps, id)
      {
        AbandonedForever(s, steps, id);
      }
    }
  }

  // ----- requests that are abandoned -----------------------------------------------------------------------------

  /** The steps of a reader that gives up. */
  function GivingUp(reader: nat, id: int): seq<Step> {
    [EnterRead(reader, id), Expire(reader), GiveUp(reader)]
  }

  lemma GivesUp(s: Protocol, reader: nat, id: int)
    requires !s.shared.closed && reader !in s.readers && !Answered(s.shared.requests, id)
    ensures var steps := GivingUp(reader, id);
            Runs(s, steps) && End(s, steps).shared == s.shared.(closed := true, pendingReads := s.shared.pendingReads + 1) &&
            End(s, steps).loop == s.loop
  {
    var s1 := Apply(s, EnterRead(reader, id));
    var s2 := Apply(s1, Expire(reader));
    assert [GiveUp(reader)] == [GiveUp(reader)] + [];
    Prepend(s2, GiveUp(reader), []);
    Prepend(s1, Expire(reader), [GiveUp(reader)]);
    assert [Expire(reader)] + [GiveUp(reader)] == [Expire(reader), GiveUp(reader)];
    Prepend(s, EnterRead(reader, id), [Expire(reader), GiveUp(reader)]);
    assert [EnterRead(reader, id)] + [Expire(reader), GiveUp(reader)] == GivingUp(reader, id);
  }

  /** Whatever request is written to an open connection between callbacks: if then a reader gives up on an id that has no
      result, the request is abandoned. The id may be its own. */
  lemma RequestIsAbandoned(s: Protocol, buf: Bytes, reader: nat, id: int)
    requires s.loop.Idle? && Accepts(s.shared, buf) && reader !in s.readers
    requires id == IdOf(buf) || !Answered(s.shared.requests, id)
    ensures var steps := [Write(buf)] + GivingUp(reader, id); Runs(s, steps) && Abandoned(End(s, steps), IdOf(buf))
  {
    var next := Apply(s, Write(buf));
    GivesUp(next, reader, id);
    Prepend(s, Write(buf), GivingUp(reader, id));
  }

  /** So one request and one reader are enough. */
  lemma FirstRequestIsAbandoned(buf: Bytes, id: int)
    requires |buf| >= 2
    ensures var steps := [Write(buf)] + GivingUp(0, id); Runs(Start, steps) && Abandoned(End(Start, steps), IdOf(buf))
  {
    RequestIsAbandoned(Start, buf, 0, id);
  }

  // ----- how a connection is closed -----------------------------------------------------------------------------

  /** Of the two steps that close, the one of the event thread leads to results for all requests; the one of a reader that
      gives up leaves exactly those that nothing was on the way for. */
  lemma ClosingSteps(s: Protocol, step: Step, id: int)
    requires !s.shared.closed && Enabled(s, step) && Apply(s, step).shared.closed && Unanswered(s, id) && Inv(s)
    ensures step.RemoveFromAll? || step.GiveUp?
    ensures step.RemoveFromAll? ==> !Abandoned(Apply(s, step), id)
    ensures step.GiveUp? ==> (Abandoned(Apply(s, step), id) <==> !ResultAhead(s, id))
  {
  }
}

/** The temporary disabler of upstream/src/bootstrapper.cpp: after failures over some seconds, bootstrapping is refused for
    a while. Times are in milliseconds. */
module Disabler {
  import opened Text

  const RESOLVE_TRYING_INTERVAL := 7000
  const TEMPORARY_DISABLE_INTERVAL := 7000

  /** The first and the last failure of a streak; zero in `first` means that there is none. */
  datatype FailTimes = FailTimes(first: int, last: int)

  /** The streak has lasted longer than the trying interval. */
  predicate TooMany(f: FailTimes) {
    f.first != 0 && f.last > f.first + RESOLVE_TRYING_INTERVAL
  }

  predicate Refuses(f: FailTimes, now: int) {
    TooMany(f) && now < f.first + RESOLVE_TRYING_INTERVAL + TEMPORARY_DISABLE_INTERVAL
  }

  function AfterCheck(f: FailTimes, now: int): FailTimes {
    if TooMany(f) && !Refuses(f, now) then f.(first := 0) else f
  }

  function AfterUpdate(f: FailTimes, failed: bool, now: int): FailTimes {
    if failed then FailTimes(if f.first == 0 then now else f.first, now) else f.(first := 0)
  }

  class Times {
    var first: int
    var last: int

    ghost function State(): FailTimes
      reads this
    {
      FailTimes(first, last)
    }

    constructor ()
      ensures State() == FailTimes(0, 0)
    {
      first, last := 0, 0;
    }

    /** `remaining` is the time for which bootstrapping stays refused. */
    method Check(now: int) returns (remaining: Option<int>)
      modifies this
      ensures State() == AfterCheck(old(State()), now)
      ensures remaining.Some? <==> Refuses(old(State()), now)
      ensures remaining.Some? ==> remaining.value > 0 && !Refuses(State(), now + remaining.value)
                                  && Refuses(State(), now + remaining.value - 1)
    {
      if first != 0 {
        var triesTimeout := first + RESOLVE_TRYING_INTERVAL;
        if last > triesTimeout {
          var disabledFor := now - triesTimeout;
          var left := TEMPORARY_DISABLE_INTERVAL - disabledFor;
          if left > 0 {
            return Some(left);
          } else {
            first := 0;
          }
        }
      }
      remaining := None;
    }

    method Update(failed: bool, now: int)
      modifies this
      ensures State() == AfterUpdate(old(State()), failed, now)
    {
      if failed {
        last := now;
        if first == 0 {
          first := last;
        }
      } else {
        first := 0;
      }
    }
  }

  // ----- runs -------------------------------------------------------------------------------------------------

  /** A call that was refused, or one that was allowed when it checked and ended later. */
  datatype Event = Refused(now: int) | Tried(now: int, at: int, failed: bool)

  function EndOf(e: Event): int {
    if e.Tried? then e.at else e.now
  }

  ghost function After(events: seq<Event>): FailTimes {
    if |events| == 0 then FailTimes(0, 0)
    else
      var f, e := After(events[..|events| - 1]), events[|events| - 1];
      var checked := AfterCheck(f, e.now);
      if e.Tried? then AfterUpdate(checked, e.failed, e.at) else checked
  }

  /** The time the last event ended. */
  function Clock(events: seq<Event>): int {
    if |events| == 0 then 1 else EndOf(events[|events| - 1])
  }

  /** Calls are refused when the state says so, one after the other, by a positive clock that does not go back. */
  ghost predicate IsRun(events: seq<Event>) {
    |events| > 0 ==>
      var before, e := events[..|events| - 1], events[|events| - 1];
      && IsRun(before)
      && Clock(before) <= e.now <= EndOf(e)
      && (e.Refused? <==> Refuses(After(before), e.now))
  }

  /** The last attempt failed at `at`. */
  ghost predicate LastTryFailed(events: seq<Event>, at: int) {
    |events| > 0 &&
    var e := events[|events| - 1];
    if e.Tried? then e.failed && e.at == at else LastTryFailed(events[..|events| - 1], at)
  }

  /** Attempt `s` failed, and so did every one since. */
  ghost predicate FailingSince(events: seq<Event>, s: int) {
    && 0 <= s < |events| && events[s].Tried?
    && forall j :: s <= j < |events| && events[j].Tried? ==> events[j].failed
  }

  /** The two times are those of the first and the last failure of a streak. */
  ghost predicate IsStreak(events: seq<Event>, f: FailTimes) {
    && f.last <= Clock(events)
    && (f.first != 0 ==>
          LastTryFailed(events, f.last) && exists s :: FailingSince(events, s) && events[s].at == f.first)
  }

  lemma StreakStep(events: seq<Event>, e: Event, f: FailTimes)
    requires IsStreak(events, f) && Clock(events) <= e.now <= EndOf(e) && 0 < e.now
    ensures var checked := AfterCheck(f, e.now);
            IsStreak(events + [e], if e.Tried? then AfterUpdate(checked, e.failed, e.at) else checked)
  {
    var longer := events + [e];
    assert longer[..|events|] == events;
    if e.Tried? && e.failed {
      assert FailingSince(longer, |events|);
    }
    if f.first != 0 && (e.Refused? || e.failed) {
      var s :| FailingSince(events, s) && events[s].at == f.first;
      assert FailingSince(longer, s) && longer[s].at == f.first;
    }
  }

  lemma {:induction false} ClockIsPositive(events: seq<Event>)
    requires IsRun(events)
    ensures Clock(events) > 0
  {
    if |events| > 0 {
      ClockIsPositive(events[..|events| - 1]);
    }
  }

  lemma {:induction false} RunIsStreak(events: seq<Event>)
    requires IsRun(events)
    ensures IsStreak(events, After(events))
  {
    if |events| > 0 {
      var before, e := events[..|events| - 1], events[|events| - 1];
      RunIsStreak(before);
      ClockIsPositive(before);
      StreakStep(before, e, After(before));
      assert before + [e] == events;
    }
  }

  /** A call is refused only while every attempt since some time failed, the last one more than seven seconds after the
      first, and for less than fourteen seconds from that first one. */
  lemma RefusalMeaning(events: seq<Event>, now: int)
    requires IsRun(events) && Refuses(After(events), now)
    ensures exists s, at ::
              && FailingSince(events, s) && LastTryFailed(events, at)
              && events[s].at + 7000 < at && now < events[s].at + 14000
  {
    RunIsStreak(events);
    var s :| FailingSince(events, s) && events[s].at == After(events).first;
    assert LastTryFailed(events, After(events).last);
  }

  lemma {:induction false} OnlyRefused(events: seq<Event>, more: seq<Event>)
    requires IsRun(events + more) && forall i :: 0 <= i < |more| ==> more[i].Refused?
    ensures After(events + more) == After(events) && Clock(events) <= Clock(events + more)
  {
    if |more| == 0 {
      assert events + more == events;
    } else {
      var fewer := more[..|more| - 1];
      assert (events + more)[..|events + more| - 1] == events + fewer;
      OnlyRefused(events, fewer);
    }
  }

  /** Calls refused in a row lie within less than seven seconds. */
  lemma RefusalsEnd(events: seq<Event>, more: seq<Event>, now: int, later: int)
    requires IsRun(events + more) && forall i :: 0 <= i < |more| ==> more[i].Refused?
    requires IsRun(events) && Clock(events) <= now && Refuses(After(events), now)
    requires Refuses(After(events + more), later)
    ensures later - now < 7000
  {
    OnlyRefused(events, more);
    RunIsStreak(events);
  }

  /** The first call at or after the end of the refusals is let through, and a failure then starts a new streak: it is not
      refused again before another failure more than seven seconds later. */
  lemma TriesAgain(f: FailTimes, now: int, at: int)
    requires TooMany(f) && now >= f.first + 14000 && at > 0
    ensures !Refuses(f, now)
    ensures AfterUpdate(AfterCheck(f, now), true, at) == FailTimes(at, at)
    ensures forall later :: !Refuses(FailTimes(at, at), later)
  {
  }

  /** After a success no call is refused until there is a new streak. */
  lemma SuccessEndsStreak(events: seq<Event>, now: int)
    requires |events| > 0 && events[|events| - 1].Tried? && !events[|events| - 1].failed
    ensures !Refuses(After(events), now)
  {
  }
}

/** Runs of the response cache of proxy/src/dns_forwarder.cpp: what the responses it serves have to do with the
    responses that were put into it. */
module ResponseRuns {
  import opened Text
  import opened LruCache
  import opened ResponseCache

  datatype Event =
    | Store(key: string, now: int, response: Packet, upstreamId: Option<int>)
    | Fetch(key: string, now: int)

  ghost function After(capacity: nat, events: seq<Event>): Cached {
    if |events| == 0 then []
    else Changed(After(capacity, events[..|events| - 1]), capacity, events[|events| - 1])
  }

  ghost function Changed(s: Cached, capacity: nat, e: Event): Cached {
    if e.Fetch? then Consulted(s, e.key, e.now)
    else if Cacheable(e.response) then Inserted(s, capacity, e.key, KeptAt(e))
    else s
  }

  predicate Stores(e: Event, key: string) {
    e.Store? && e.key == key && Cacheable(e.response)
  }

  /** The last event that put a response for the key. */
  ghost function LastStored(events: seq<Event>, key: string): (r: Option<nat>)
    ensures r.Some? ==> r.value < |events| && Stores(events[r.value], key)
  {
    if |events| == 0 then None
    else if Stores(events[|events| - 1], key) then Some(|events| - 1)
    else LastStored(events[..|events| - 1], key)
  }

  function KeptAt(e: Event): CachedResponse
    requires e.Store?
  {
    Keep(e.response, e.upstreamId, e.now)
  }

  // ----- entries are the last stored responses ------------------------------------------------------------

  ghost predicate Distinct(s: Cached) {
    forall i, j :: 0 <= i < j < |s| ==> s[i].0 != s[j].0
  }

  /** Keys are distinct, and each entry is what was kept last for its key. */
  ghost predicate Current(s: Cached, last: string -> Option<CachedResponse>) {
    Distinct(s) && forall i :: 0 <= i < |s| ==> last(s[i].0) == Some(s[i].1)
  }

  ghost function LastKept(events: seq<Event>): string -> Option<CachedResponse> {
    key => match LastStored(events, key) case None => None case Some(p) => Some(KeptAt(events[p]))
  }

  lemma {:induction false} WithoutComesFrom(s: Cached, key: string)
    ensures forall i :: 0 <= i < |Without(s, key)| ==> Without(s, key)[i] in s
  {
    if |s| > 0 {
      WithoutComesFrom(s[1..], key);
    }
  }

  lemma DistinctTail(s: Cached, i: nat)
    requires Distinct(s) && 0 < |s| && i < |s[1..]|
    ensures s[1..][i].0 != s[0].0
  {
  }

  lemma DistinctCons(first: (string, CachedResponse), s: Cached)
    requires Distinct(s) && forall i :: 0 <= i < |s| ==> s[i].0 != first.0
    ensures Distinct([first] + s)
  {
  }

  lemma {:induction false} WithoutIsDistinct(s: Cached, key: string)
    requires Distinct(s)
    ensures Distinct(Without(s, key)) && !HasKey(Without(s, key), key)
  {
    if |s| > 0 {
      var rest := s[1..];
      var r := Without(rest, key);
      WithoutIsDistinct(rest, key);
      if s[0].0 != key {
        WithoutComesFrom(rest, key);
        forall i | 0 <= i < |r|
          ensures r[i].0 != s[0].0
        {
          var k :| 0 <= k < |rest| && rest[k] == r[i];
          DistinctTail(s, k);
        }
        DistinctCons(s[0], r);
      } else {
        forall i | 0 <= i < |rest|
          ensures rest[i].0 != key
        {
          DistinctTail(s, i);
        }
      }
    }
  }

  lemma WithoutIsCurrent(s: Cached, key: string, last: string -> Option<CachedResponse>)
    requires Current(s, last)
    ensures Current(Without(s, key), last) && !HasKey(Without(s, key), key)
  {
    WithoutIsDistinct(s, key);
    WithoutComesFrom(s, key);
  }

  lemma {:induction false} ValueIsCurrent(s: Cached, key: string, last: string -> Option<CachedResponse>)
    requires Current(s, last) && HasKey(s, key)
    ensures last(key) == Some(ValueOf(s, key))
  {
    if s[0].0 != key {
      ValueIsCurrent(s[1..], key, last);
    }
  }

  lemma ChangedElsewhere(s: Cached, key: string, last: string -> Option<CachedResponse>,
                         last': string -> Option<CachedResponse>)
    requires Current(s, last) && !HasKey(s, key) && forall q :: q != key ==> last'(q) == last(q)
    ensures Current(s, last')
  {
  }

  lemma PlacedIsCurrent(s: Cached, key: string, c: CachedResponse, last: string -> Option<CachedResponse>)
    requires Current(s, last) && !HasKey(s, key) && last(key) == Some(c)
    ensures Current([(key, c)] + s, last) && Current(s + [(key, c)], last)
  {
  }

  lemma ConsultedIsCurrent(s: Cached, key: string, now: int, last: string -> Option<CachedResponse>)
    requires Current(s, last)
    ensures Current(Consulted(s, key, now), last)
  {
    if HasKey(s, key) {
      ValueIsCurrent(s, key, last);
      WithoutIsCurrent(s, key, last);
      PlacedIsCurrent(Without(s, key), key, ValueOf(s, key), last);
    }
  }

  lemma InsertedIsCurrent(s: Cached, capacity: nat, key: string, c: CachedResponse,
                          last: string -> Option<CachedResponse>, last': string -> Option<CachedResponse>)
    requires Current(s, last) && last'(key) == Some(c) && forall q :: q != key ==> last'(q) == last(q)
    ensures Current(Inserted(s, capacity, key, c), last')
  {
    WithoutIsCurrent(s, key, last);
    ChangedElsewhere(Without(s, key), key, last, last');
    PlacedIsCurrent(Without(s, key), key, c, last');
  }

  lemma LastKeptStep(events: seq<Event>, key: string)
    requires |events| > 0
    ensures var n := |events| - 1;
            LastKept(events)(key) == if Stores(events[n], key) then Some(KeptAt(events[n])) else LastKept(events[..n])(key)
  {
  }

  lemma ChangedIsCurrent(s: Cached, capacity: nat, e: Event, last: string -> Option<CachedResponse>,
                         last': string -> Option<CachedResponse>)
    requires Current(s, last)
    requires forall q :: last'(q) == if Stores(e, q) then Some(KeptAt(e)) else last(q)
    ensures Current(Changed(s, capacity, e), last')
  {
    if e.Fetch? {
      ConsultedIsCurrent(s, e.key, e.now, last);
      SameLast(Changed(s, capacity, e), last, last');
    } else if Cacheable(e.response) {
      InsertedIsCurrent(s, capacity, e.key, KeptAt(e), last, last');
    } else {
      SameLast(s, last, last');
    }
  }

  lemma {:induction false} RunIsCurrent(capacity: nat, events: seq<Event>)
    ensures Current(After(capacity, events), LastKept(events))
  {
    if |events| > 0 {
      var before, e := events[..|events| - 1], events[|events| - 1];
      RunIsCurrent(capacity, before);
      forall q
        ensures LastKept(events)(q) == if Stores(e, q) then Some(KeptAt(e)) else LastKept(before)(q)
      {
        LastKeptStep(events, q);
      }
      ChangedIsCurrent(After(capacity, before), capacity, e, LastKept(before), LastKept(events));
    }
  }

  lemma SameLast(s: Cached, last: string -> Option<CachedResponse>, last': string -> Option<CachedResponse>)
    requires Current(s, last) && forall q :: last'(q) == last(q)
    ensures Current(s, last')
  {
  }

  // ----- what is served -----------------------------------------------------------------------------------

  /** All records of a packet, of which there are some, carry the TTL `t`. */
  ghost predicate OneTtl(p: Packet, t: int) {
    Records(p) != [] && forall r :: r in Records(p) ==> r.ttl == t
  }

  predicate SameButTtl(a: seq<Record>, b: seq<Record>) {
    |a| == |b| && forall i :: 0 <= i < |a| ==> a[i].rtype == b[i].rtype && a[i].data == b[i].data
  }

  /** The request's id and question around the stored records. */
  ghost predicate Answers(sent: Packet, stored: Packet, request: Packet) {
    && sent.id == request.id && sent.questions == request.questions
    && !sent.authoritative && !sent.truncated && sent.rcode == 0
    && sent.edns == stored.edns && sent.udpSize == (if stored.edns then 4096 else stored.udpSize)
    && SameButTtl(stored.answer, sent.answer)
    && SameButTtl(stored.authority, sent.authority)
    && SameButTtl(stored.additional, sent.additional)
  }

  lemma CeilBounds(d: int)
    ensures (CeilSeconds(d) - 1) * SECOND < d <= CeilSeconds(d) * SECOND
  {
  }

  /** The TTL of a kept response is between one second and its least TTL, and falls as time passes. */
  lemma TtlBounds(p: Packet, upstreamId: Option<int>, at: int, now: int)
    requires MinTtl(p) > 0 && at <= now
    ensures var c := Keep(p, upstreamId, at);
            && 1 <= TtlLeft(c, now) <= MinTtl(p)
            && (Expired(c, now) <==> now >= at + MinTtl(p) * SECOND)
  {
    CeilBounds(at + MinTtl(p) * SECOND - now);
  }

  lemma TtlFalls(c: CachedResponse, now: int, later: int)
    requires now <= later
    ensures TtlLeft(c, later) <= TtlLeft(c, now) && (Expired(c, now) ==> Expired(c, later))
  {
    CeilBounds(c.expiresAt - now);
    CeilBounds(c.expiresAt - later);
  }

  lemma ReplyHasOneTtl(p: Packet, request: Packet, ttl: Ttl)
    requires Records(p) != []
    ensures OneTtl(Reply(p, request, ttl), ttl)
  {
  }

  lemma ReplyAnswers(p: Packet, request: Packet, ttl: Ttl)
    requires !p.truncated && p.rcode == RCODE_NOERROR
    ensures Answers(Reply(p.(questions := [], authoritative := false), request, ttl), p, request)
  {
  }

  lemma PositiveHasRecords(p: Packet)
    requires MinTtl(p) > 0
    ensures Records(p) != []
  {
    MinTtlMeaning(p);
  }

  lemma FitsTtl(seconds: int, m: Ttl)
    requires 1 <= seconds <= m
    ensures AsTtl(seconds) == seconds
  {
  }

  /** The least number of seconds that covers the nanoseconds left, and one second when none are left. */
  ghost predicate CoversRest(t: int, left: int) {
    if left <= 0 then t == 1 else (t - 1) * 1_000_000_000 < left <= t * 1_000_000_000
  }

  /** One kept response as it is served. */
  lemma ServedOnce(e: Event, request: Packet, now: int)
    requires e.Store? && Cacheable(e.response) && e.now <= now
    ensures var r := Serve(KeptAt(e), request, now);
            && Answers(r.response.value, e.response, request)
            && (r.expired <==> now >= e.now + MinTtl(e.response) * 1_000_000_000)
            && OneTtl(r.response.value, TtlLeft(KeptAt(e), now))
            && 1 <= TtlLeft(KeptAt(e), now) <= MinTtl(e.response)
            && CoversRest(TtlLeft(KeptAt(e), now), e.now + MinTtl(e.response) * 1_000_000_000 - now)
  {
    var c := KeptAt(e);
    var seconds, m := TtlLeft(c, now), MinTtl(e.response);
    TtlBounds(e.response, e.upstreamId, e.now, now);
    FitsTtl(seconds, m);
    ReplyAnswers(e.response, request, AsTtl(seconds));
    PositiveHasRecords(e.response);
    ReplyHasOneTtl(c.response, request, AsTtl(seconds));
    CeilBounds(c.expiresAt - now);
  }

  /** What is served is the response put last. */
  lemma ServedIsLastStored(capacity: nat, events: seq<Event>, key: string, request: Packet, now: int)
    requires Answered(After(capacity, events), key, request, now).response.Some?
    ensures LastStored(events, key).Some?
    ensures Answered(After(capacity, events), key, request, now) ==
            Serve(KeptAt(events[LastStored(events, key).value]), request, now)
  {
    RunIsCurrent(capacity, events);
    ValueIsCurrent(After(capacity, events), key, LastKept(events));
  }

  /** What the cache serves for a key, at a time not before any event so far, is the response last put for it,
      with one TTL on all records: the seconds left of the least TTL that was put, rounded up, and one second when none
      are left; so never more than any TTL that was put. It is marked as expired exactly from then on. */
  lemma ServedMeaning(capacity: nat, events: seq<Event>, key: string, request: Packet, now: int)
    requires forall i :: 0 <= i < |events| ==> events[i].now <= now
    requires Answered(After(capacity, events), key, request, now).response.Some?
    ensures var r := Answered(After(capacity, events), key, request, now);
            && LastStored(events, key).Some?
            && var e := events[LastStored(events, key).value];
            e.Store? && e.key == key && IsServed(r, e.response, e.upstreamId, e.now, request, now)
  {
    ServedIsLastStored(capacity, events, key, request, now);
    var e := events[LastStored(events, key).value];
    ServedIsGood(e, request, now);
  }

  /** What is sent at `now` for a response that was put `at` some time. */
  ghost predicate IsServed(r: CacheResult, response: Packet, upstreamId: Option<int>, at: int, request: Packet, now: int) {
    && r.response.Some? && Answers(r.response.value, response, request)
    && r.upstreamId == upstreamId
    && (r.expired <==> now >= at + MinTtl(response) * 1_000_000_000)
    && exists t :: OneTtl(r.response.value, t) && 1 <= t && AtMost(t, response) &&
                   CoversRest(t, at + MinTtl(response) * 1_000_000_000 - now)
  }

  lemma ServedIsGood(e: Event, request: Packet, now: int)
    requires e.Store? && Cacheable(e.response) && e.now <= now
    ensures IsServed(Serve(KeptAt(e), request, now), e.response, e.upstreamId, e.now, request, now)
  {
    ServedOnce(e, request, now);
    MinTtlMeaning(e.response);
    assert AtMost(TtlLeft(KeptAt(e), now), e.response);
  }

  ghost predicate AtMost(t: int, p: Packet) {
    forall r :: r in Records(p) ==> t <= r.ttl
  }

  lemma TtlIsUnique(p: Packet, t: int, t': int)
    requires OneTtl(p, t) && OneTtl(p, t')
    ensures t == t'
  {
    assert Records(p)[0] in Records(p);
  }

  /** Between two puts of a key the TTL served for it never rises, and an expired response stays expired. */
  lemma ServedTtlNeverRises(capacity: nat, events: seq<Event>, more: seq<Event>, key: string,
                            request: Packet, request': Packet, now: int, later: int, t: int, t': int)
    requires now <= later && forall i :: 0 <= i < |events| ==> events[i].now <= now
    requires forall i :: 0 <= i < |more| ==> !Stores(more[i], key)
    requires var r := Answered(After(capacity, events), key, request, now);
             r.response.Some? && OneTtl(r.response.value, t)
    requires var r := Answered(After(capacity, events + more), key, request', later);
             r.response.Some? && OneTtl(r.response.value, t')
    ensures t' <= t
    ensures Answered(After(capacity, events), key, request, now).expired ==>
              Answered(After(capacity, events + more), key, request', later).expired
  {
    NothingStored(events, more, key);
    ServedIsLastStored(capacity, events, key, request, now);
    ServedIsLastStored(capacity, events + more, key, request', later);
    var p := LastStored(events, key).value;
    assert (events + more)[p] == events[p];
    ServedFalls(events[p], request, request', now, later, t, t');
  }

  lemma ServedFalls(e: Event, request: Packet, request': Packet, now: int, later: int, t: int, t': int)
    requires e.Store? && Cacheable(e.response) && e.now <= now <= later
    requires OneTtl(Serve(KeptAt(e), request, now).response.value, t)
    requires OneTtl(Serve(KeptAt(e), request', later).response.value, t')
    ensures t' <= t && (Serve(KeptAt(e), request, now).expired ==> Serve(KeptAt(e), request', later).expired)
  {
    ServedOnce(e, request, now);
    ServedOnce(e, request', later);
    TtlIsUnique(Serve(KeptAt(e), request, now).response.value, t, TtlLeft(KeptAt(e), now));
    TtlIsUnique(Serve(KeptAt(e), request', later).response.value, t', TtlLeft(KeptAt(e), later));
    TtlFalls(KeptAt(e), now, later);
  }

  lemma {:induction false} NothingStored(events: seq<Event>, more: seq<Event>, key: string)
    requires forall i :: 0 <= i < |more| ==> !Stores(more[i], key)
    ensures LastStored(events + more, key) == LastStored(events, key)
  {
    if |more| == 0 {
      assert events + more == events;
    } else {
      var fewer := more[..|more| - 1];
      NothingStored(events, fewer, key);
      assert (events + more)[..|events + more| - 1] == events + fewer;
    }
  }

  // ----- what is kept -------------------------------------------------------------------------------------

  /** There is an answer of type `rtype`. */
  predicate HasAnswer(p: Packet, rtype: nat) {
    exists i :: 0 <= i < |p.answer| && p.answer[i].rtype == rtype
  }

  /** The responses that are kept: whole and without error (code 0), for one question, which is answered by a record of its
      own type if it asks for an A (1) or an AAAA record (28); with some TTL below the largest value and none that is zero. */
  ghost predicate Keeps(p: Packet) {
    && !p.truncated && p.rcode == 0 && !p.unsupportedExtensions && |p.questions| == 1
    && (p.questions[0].rtype == 1 ==> HasAnswer(p, 1))
    && (p.questions[0].rtype == 28 ==> HasAnswer(p, 28))
    && (forall r :: r in p.answer + p.additional + p.authority ==> r.ttl > 0)
    && (exists r :: r in p.answer + p.additional + p.authority && r.ttl < 0xFFFF_FFFF)
  }

  lemma CacheableMeaning(p: Packet)
    ensures Cacheable(p) <==> Keeps(p)
  {
    MinTtlMeaning(p);
    if Keeps(p) {
      var r :| r in Records(p) && r.ttl < 0xFFFF_FFFF;
      assert r.ttl != UINT32_MAX;
    }
    if Cacheable(p) {
      var r :| r in Records(p) && r.ttl == MinTtl(p);
      assert MinTtl(p) < UINT32_MAX;
    }
  }

  /** A response put into a cache of some size is found by the next lookup of its key exactly when it is one to keep;
      otherwise putting it changes nothing. */
  lemma KeptIsServed(capacity: nat, events: seq<Event>, key: string, response: Packet, upstreamId: Option<int>, at: int,
                     request: Packet, now: int)
    requires capacity > 0
    ensures var s := After(capacity, events + [Store(key, at, response, upstreamId)]);
            && (Keeps(response) && at <= now ==>
                  IsServed(Answered(s, key, request, now), response, upstreamId, at, request, now))
            && (!Keeps(response) ==> s == After(capacity, events))
  {
    var e := Store(key, at, response, upstreamId);
    assert (events + [e])[..|events + [e]| - 1] == events;
    CacheableMeaning(response);
    if Keeps(response) {
      FrontIsServed(After(capacity, events), capacity, key, Keep(response, upstreamId, at));
      if at <= now {
        ServedIsGood(e, request, now);
      }
    }
  }

  lemma FrontIsServed(s: Cached, capacity: nat, key: string, c: CachedResponse)
    requires capacity > 0
    ensures HasKey(Inserted(s, capacity, key, c), key) && ValueOf(Inserted(s, capacity, key, c), key) == c
  {
    assert Inserted(s, capacity, key, c)[0] == (key, c);
  }
}

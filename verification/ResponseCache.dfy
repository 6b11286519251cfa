/** The response cache of proxy/src/dns_forwarder.cpp: which responses are kept, for how long, and how a kept
    response is rewritten when it is served. Clock readings are parameters, in nanoseconds. */
module ResponseCache {
  import opened Text
  import opened LruCache

  const UINT32_MAX := 0xFFFF_FFFF
  const SECOND := 1_000_000_000

  type Ttl = x: int | 0 <= x <= UINT32_MAX

  datatype Record = Record(rtype: nat, ttl: Ttl, data: seq<Byte>)

  datatype Question = Question(name: seq<Byte>, rtype: nat, rclass: nat)

  datatype Packet = Packet(id: nat, truncated: bool, authoritative: bool, rcode: nat, unsupportedExtensions: bool,
                           edns: bool, udpSize: nat, questions: seq<Question>,
                           answer: seq<Record>, authority: seq<Record>, additional: seq<Record>)

  const TYPE_A := 1
  const TYPE_AAAA := 28
  const RCODE_NOERROR := 0
  const UDP_RECV_BUF_SIZE := 4096

  // ----- the time a response may be kept ----------------------------------------------------------------

  function Records(p: Packet): seq<Record> {
    p.answer + p.additional + p.authority
  }

  /** The least of `start` and the TTLs of the first `n` records. */
  function LeastTtl(start: Ttl, list: seq<Record>, n: nat): Ttl
    requires n <= |list|
  {
    if n == 0 then start
    else
      var m, t := LeastTtl(start, list, n - 1), list[n - 1].ttl;
      if t < m then t else m
  }

  function MinTtl(p: Packet): Ttl {
    var a := LeastTtl(UINT32_MAX, p.answer, |p.answer|);
    var b := LeastTtl(a, p.additional, |p.additional|);
    var c := LeastTtl(b, p.authority, |p.authority|);
    if c == UINT32_MAX then 0 else c
  }

  method LowerToLeast(start: Ttl, list: seq<Record>) returns (m: Ttl)
    ensures m == LeastTtl(start, list, |list|)
  {
    m := start;
    for i := 0 to |list|
      invariant m == LeastTtl(start, list, i)
    {
      if list[i].ttl < m {
        m := list[i].ttl;
      }
    }
  }

  method ComputeMinRrTtl(p: Packet) returns (m: Ttl)
    ensures m == MinTtl(p)
  {
    m := LowerToLeast(UINT32_MAX, p.answer);
    m := LowerToLeast(m, p.additional);
    m := LowerToLeast(m, p.authority);
    if m == UINT32_MAX {
      m := 0;
    }
  }

  lemma {:induction false} LeastTtlMeaning(start: Ttl, list: seq<Record>, n: nat)
    requires n <= |list|
    ensures var m := LeastTtl(start, list, n);
            && m <= start && (forall i :: 0 <= i < n ==> m <= list[i].ttl)
            && (m == start || exists i :: 0 <= i < n && list[i].ttl == m)
  {
    if n > 0 {
      LeastTtlMeaning(start, list, n - 1);
    }
  }

  /** No TTL is below a positive minimum, which is the TTL of some record; the minimum is zero exactly when some
      TTL is zero or none is below the largest value. */
  lemma MinTtlMeaning(p: Packet)
    ensures forall r :: r in Records(p) ==> MinTtl(p) <= r.ttl
    ensures MinTtl(p) > 0 ==> exists r :: r in Records(p) && r.ttl == MinTtl(p)
    ensures MinTtl(p) == 0 <==>
            (exists r :: r in Records(p) && r.ttl == 0) || (forall r :: r in Records(p) ==> r.ttl == UINT32_MAX)
  {
    var a := LeastTtl(UINT32_MAX, p.answer, |p.answer|);
    var b := LeastTtl(a, p.additional, |p.additional|);
    var c := LeastTtl(b, p.authority, |p.authority|);
    LeastTtlMeaning(UINT32_MAX, p.answer, |p.answer|);
    LeastTtlMeaning(a, p.additional, |p.additional|);
    LeastTtlMeaning(b, p.authority, |p.authority|);
    LeastOfAll(Records(p), p.answer, p.additional, p.authority, c);
  }

  lemma LeastOfAll(all: seq<Record>, x: seq<Record>, y: seq<Record>, z: seq<Record>, m: Ttl)
    requires all == x + y + z
    ensures (forall r :: r in all ==> m <= r.ttl) <==>
            (forall i :: 0 <= i < |x| ==> m <= x[i].ttl) && (forall i :: 0 <= i < |y| ==> m <= y[i].ttl) &&
            (forall i :: 0 <= i < |z| ==> m <= z[i].ttl)
    ensures (exists r :: r in all && r.ttl == m) <==>
            (exists i :: 0 <= i < |x| && x[i].ttl == m) || (exists i :: 0 <= i < |y| && y[i].ttl == m) ||
            (exists i :: 0 <= i < |z| && z[i].ttl == m)
  {
    assert forall r :: r in all <==> r in x || r in y || r in z;
    if i :| 0 <= i < |x| && x[i].ttl == m {
      assert x[i] in all;
    }
    if i :| 0 <= i < |y| && y[i].ttl == m {
      assert y[i] in all;
    }
    if i :| 0 <= i < |z| && z[i].ttl == m {
      assert z[i] in all;
    }
    if forall r :: r in all ==> m <= r.ttl {
      forall i | 0 <= i < |x| ensures m <= x[i].ttl { assert x[i] in all; }
      forall i | 0 <= i < |y| ensures m <= y[i].ttl { assert y[i] in all; }
      forall i | 0 <= i < |z| ensures m <= z[i].ttl { assert z[i] in all; }
    }
  }

  // ----- keeping a response -----------------------------------------------------------------------------

  datatype CachedResponse = CachedResponse(response: Packet, expiresAt: int, upstreamId: Option<int>)

  datatype CacheResult = CacheResult(response: Option<Packet>, upstreamId: Option<int>, expired: bool)

  type Cached = Entries<string, CachedResponse>

  predicate AnswersQuestion(p: Packet)
    requires |p.questions| == 1
  {
    var t := p.questions[0].rtype;
    t == TYPE_A || t == TYPE_AAAA ==> exists i :: 0 <= i < |p.answer| && p.answer[i].rtype == t
  }

  predicate Cacheable(p: Packet) {
    && !p.truncated && |p.questions| == 1 && p.rcode == RCODE_NOERROR && !p.unsupportedExtensions
    && AnswersQuestion(p) && MinTtl(p) > 0
  }

  /** What is kept of a response received at `now`. */
  function Keep(p: Packet, upstreamId: Option<int>, now: int): CachedResponse {
    CachedResponse(p.(questions := [], authoritative := false), now + MinTtl(p) * SECOND, upstreamId)
  }

  // ----- serving a kept response --------------------------------------------------------------------------

  /** Whole seconds that cover `d` nanoseconds. */
  function CeilSeconds(d: int): int {
    (d + SECOND - 1) / SECOND
  }

  predicate Expired(c: CachedResponse, now: int) {
    CeilSeconds(c.expiresAt - now) <= 0
  }

  function TtlLeft(c: CachedResponse, now: int): int {
    if Expired(c, now) then 1 else CeilSeconds(c.expiresAt - now)
  }

  /** The cast of a count of seconds to 32 bits. */
  function AsTtl(seconds: int): Ttl {
    seconds % (UINT32_MAX + 1)
  }

  function WithTtl(list: seq<Record>, ttl: Ttl): (r: seq<Record>)
    ensures |r| == |list| && forall i :: 0 <= i < |r| ==> r[i] == list[i].(ttl := ttl)
  {
    seq(|list|, i requires 0 <= i < |list| => list[i].(ttl := ttl))
  }

  function Reply(p: Packet, request: Packet, ttl: Ttl): Packet {
    p.(id := request.id,
       udpSize := if p.edns then UDP_RECV_BUF_SIZE else p.udpSize,
       questions := request.questions,
       answer := WithTtl(p.answer, ttl),
       authority := WithTtl(p.authority, ttl),
       additional := WithTtl(p.additional, ttl))
  }

  method Patch(p: Packet, request: Packet, ttl: Ttl) returns (reply: Packet)
    ensures reply == Reply(p, request, ttl)
  {
    reply := p.(id := request.id);
    if p.edns {
      reply := reply.(udpSize := UDP_RECV_BUF_SIZE);
    }
    reply := reply.(questions := request.questions);
    var answer := PatchTtls(p.answer, ttl);
    var authority := PatchTtls(p.authority, ttl);
    var additional := PatchTtls(p.additional, ttl);
    reply := reply.(answer := answer, authority := authority, additional := additional);
  }

  method PatchTtls(list: seq<Record>, ttl: Ttl) returns (r: seq<Record>)
    ensures r == WithTtl(list, ttl)
  {
    r := list;
    for i := 0 to |list|
      invariant |r| == |list|
      invariant forall j :: 0 <= j < i ==> r[j] == list[j].(ttl := ttl)
      invariant forall j :: i <= j < |list| ==> r[j] == list[j]
    {
      r := r[i := r[i].(ttl := ttl)];
    }
  }

  /** The entries after a lookup at `now`: a served entry becomes the first, an expired one the last. */
  function Consulted(s: Cached, key: string, now: int): Cached {
    if !HasKey(s, key) then s
    else
      var c := ValueOf(s, key);
      if Expired(c, now) then Without(s, key) + [(key, c)] else [(key, c)] + Without(s, key)
  }

  class ResponseCache {
    var cacheSize: nat
    const cache: LruCache<string, CachedResponse>

    ghost predicate Valid()
      reads this, cache
    {
      cache.Valid()
    }

    ghost function Contents(): Cached
      reads this, cache, cache.keyValues
    {
      cache.Contents()
    }

    constructor (cacheSize: nat)
      ensures Valid() && fresh(cache) && Contents() == [] && this.cacheSize == cacheSize
      ensures cache.maxSize == if cacheSize == 0 then DEFAULT_CAPACITY else cacheSize
    {
      this.cacheSize := cacheSize;
      this.cache := new LruCache(cacheSize);
    }

    method PutResponse(key: string, response: Packet, upstreamId: Option<int>, now: int)
      requires Valid()
      modifies cache, cache.keyValues
      ensures Valid() && cache.maxSize == old(cache.maxSize)
      ensures Contents() == if cacheSize > 0 && Cacheable(response)
                            then Inserted(old(Contents()), cache.maxSize, key, Keep(response, upstreamId, now))
                            else old(Contents())
    {
      if cacheSize == 0 {
        return;
      }
      var kept := ResponseToKeep(response, upstreamId, now);
      if kept.Some? {
        var _ := cache.Insert(key, kept.value);
      }
    }

    /** The checks on a response, and what is kept of it. */
    method ResponseToKeep(response: Packet, upstreamId: Option<int>, now: int) returns (r: Option<CachedResponse>)
      ensures r == if Cacheable(response) then Some(Keep(response, upstreamId, now)) else None
    {
      r := None;
      if response.truncated || |response.questions| != 1 || response.rcode != RCODE_NOERROR
         || response.unsupportedExtensions {
        return;
      }
      var found := FindRequested(response);
      if !found {
        return;
      }
      var kept := response.(questions := [], authoritative := false);
      var ttl := ComputeMinRrTtl(kept);
      if ttl == 0 {
        return;
      }
      r := Some(CachedResponse(kept, now + ttl * SECOND, upstreamId));
    }

    method FindRequested(response: Packet) returns (found: bool)
      requires |response.questions| == 1
      ensures found <==> AnswersQuestion(response)
    {
      var rtype := response.questions[0].rtype;
      if rtype != TYPE_A && rtype != TYPE_AAAA {
        return true;
      }
      for i := 0 to |response.answer|
        invariant forall j :: 0 <= j < i ==> response.answer[j].rtype != rtype
      {
        if response.answer[i].rtype == rtype {
          return true;
        }
      }
      return false;
    }

    method CreateResponse(key: string, request: Packet, now: int) returns (r: CacheResult)
      requires Valid()
      modifies cache
      ensures Valid() && cache.maxSize == old(cache.maxSize)
      ensures cacheSize == 0 || request.unsupportedExtensions ==>
                r == CacheResult(None, None, false) && Contents() == old(Contents())
      ensures cacheSize > 0 && !request.unsupportedExtensions ==>
                && Contents() == Consulted(old(Contents()), key, now)
                && r == Answered(old(Contents()), key, request, now)
    {
      r := CacheResult(None, None, false);
      if cacheSize == 0 || request.unsupportedExtensions {
        return;
      }
      var acc := cache.Get(key);
      if acc.None? {
        return;
      }
      var c := acc.value.value;
      if CeilSeconds(c.expiresAt - now) <= 0 {
        PromotedThenDemoted(old(Contents()), key);
        cache.MakeLru(acc.value);
      }
      r := ServeEntry(c, request, now);
    }

    method ServeEntry(c: CachedResponse, request: Packet, now: int) returns (r: CacheResult)
      ensures r == Serve(c, request, now)
    {
      var left := CeilSeconds(c.expiresAt - now);
      var ttl: Ttl := if left <= 0 then 1 else AsTtl(left);
      var reply := Patch(c.response, request, ttl);
      r := CacheResult(Some(reply), c.upstreamId, left <= 0);
    }
  }

  function Serve(c: CachedResponse, request: Packet, now: int): CacheResult {
    CacheResult(Some(Reply(c.response, request, AsTtl(TtlLeft(c, now)))), c.upstreamId, Expired(c, now))
  }

  function Answered(s: Cached, key: string, request: Packet, now: int): CacheResult {
    if HasKey(s, key) then Serve(ValueOf(s, key), request, now) else CacheResult(None, None, false)
  }

  lemma PromotedThenDemoted(s: Cached, key: string)
    requires HasKey(s, key)
    ensures HasKey(Promoted(s, key), key) && Demoted(Promoted(s, key), key) == Without(s, key) + [(key, ValueOf(s, key))]
  {
    assert Promoted(s, key)[0].0 == key;
    assert Promoted(s, key)[1..] == Without(s, key);
  }
}

/** Bootstrapping of an upstream's address: upstream/src/bootstrapper.cpp. What a resolver answers, and how long it
    takes, is given by an environment. */
module Bootstrapper {
  import opened Text
  import Disabler

  const MIN_TIMEOUT := 50

  type Address = string
  type Resolver = nat

  datatype Attempt = Attempt(addresses: seq<Address>, error: Option<string>, elapsed: nat)

  /** `resolve(r, t)` is what resolver `r` answers when it is given `t` milliseconds. */
  datatype Env = Env(resolve: (Resolver, int) -> Attempt)

  /** The end of a resolver's own work: the answers for A and AAAA records, each a list or an error. */
  datatype Lookup = Found(addresses: seq<Address>) | Failed(error: string) | Skipped

  function ResolverResult(host: string, a: Lookup, aaaa: Lookup): (r: (seq<Address>, Option<string>))
    ensures r.1.None? ==> r.0 != []
    ensures r.1.None? <==> !a.Failed? && !aaaa.Failed? && r.0 != []
    ensures forall x :: x in r.0 <==> (a.Found? && x in a.addresses) || (aaaa.Found? && x in aaaa.addresses)
    ensures a.Failed? && !aaaa.Failed? ==> r.1 == Some(a.error)
    ensures aaaa.Failed? ==> r.1 == Some(aaaa.error)
  {
    var addrs := (if a.Found? then a.addresses else []) + (if aaaa.Found? then aaaa.addresses else []);
    var error := if aaaa.Failed? then Some(aaaa.error) else if a.Failed? then Some(a.error) else None;
    if error.None? && addrs == [] then (addrs, Some("Could not resolve " + host)) else (addrs, error)
  }

  /** A resolver that reports no error found something. */
  ghost predicate Sound(env: Env) {
    forall r, t :: env.resolve(r, t).error.None? ==> env.resolve(r, t).addresses != []
  }

  // ----- the attempts ---------------------------------------------------------------------------------------

  type Attempts = seq<Attempt>

  function Max(a: int, b: int): int { if a < b then b else a }

  /** The time left after the first `n` attempts. */
  function TimeLeft(o: Attempts, timeout: int, n: nat): int
    requires n <= |o|
  {
    if n == 0 then timeout else TimeLeft(o, timeout, n - 1) - o[n - 1].elapsed
  }

  /** The first `n` of `o` are what the resolvers of the list answer one after the other, each given half of the time
      that is left, and not less than the minimum. */
  ghost predicate Answers(env: Env, list: seq<Resolver>, timeout: int, o: Attempts, n: nat)
    requires n <= |o|
  {
    n == 0 ||
    (n <= |list| && o[n - 1] == env.resolve(list[n - 1], Max(TimeLeft(o, timeout, n - 1) / 2, MIN_TIMEOUT)) &&
     Answers(env, list, timeout, o, n - 1))
  }

  ghost predicate AllAnswers(env: Env, list: seq<Resolver>, timeout: int, o: Attempts) {
    |o| == |list| && Answers(env, list, timeout, o, |o|)
  }

  /** Each resolver is given half of the time that is left, and not less than 50 milliseconds. */
  lemma {:induction false} AnswerAt(env: Env, list: seq<Resolver>, timeout: int, o: Attempts, n: nat, i: nat)
    requires i < n <= |o| == |list| && Answers(env, list, timeout, o, n)
    ensures o[i] == env.resolve(list[i], Max(TimeLeft(o, timeout, i) / 2, 50))
  {
    if i < n - 1 {
      AnswerAt(env, list, timeout, o, n - 1, i);
    }
  }

  lemma {:induction false} AnswersAreSound(env: Env, list: seq<Resolver>, timeout: int, o: Attempts)
    requires Sound(env) && AllAnswers(env, list, timeout, o)
    ensures forall i :: 0 <= i < |o| && o[i].error.None? ==> o[i].addresses != []
  {
    forall i | 0 <= i < |o| && o[i].error.None?
      ensures o[i].addresses != []
    {
      AnswerAt(env, list, timeout, o, |o|, i);
    }
  }

  /** Those of the first `n` resolvers that succeed, or that fail, in order. */
  function Chosen(list: seq<Resolver>, o: Attempts, n: nat, ok: bool): seq<Resolver>
    requires n <= |list| == |o|
  {
    if n == 0 then []
    else if o[n - 1].error.None? == ok then Chosen(list, o, n - 1, ok) + [list[n - 1]]
    else Chosen(list, o, n - 1, ok)
  }

  function Elements(s: seq<Address>): set<Address> {
    set a | a in s
  }

  /** The addresses found by the successful ones of the first `n` attempts. */
  function Gathered(o: Attempts, n: nat): set<Address>
    requires n <= |o|
  {
    if n == 0 then {}
    else if o[n - 1].error.None? then Gathered(o, n - 1) + Elements(o[n - 1].addresses)
    else Gathered(o, n - 1)
  }

  function Longer(error: Option<string>, message: string): string {
    (if error.Some? then error.value else "") + message + "\n"
  }

  /** The errors of the first `n` attempts, a line each, when none of them succeeds. */
  function Errors(o: Attempts, n: nat): Option<string>
    requires n <= |o|
  {
    if n == 0 || AnySuccess(o, n) then None else Some(Longer(Errors(o, n - 1), o[n - 1].error.value))
  }

  predicate AnySuccess(o: Attempts, n: nat)
    requires n <= |o|
  {
    n > 0 && (o[n - 1].error.None? || AnySuccess(o, n - 1))
  }

  /** Attempts stop after the first one that leaves too little time, or at the end of the list. */
  ghost predicate StopsAt(o: Attempts, timeout: int, n: nat) {
    && 0 < n <= |o| && GoesOn(o, timeout, n - 1)
    && (n == |o| || TimeLeft(o, timeout, n) <= MIN_TIMEOUT)
  }

  /** Each of the first `n` attempts leaves enough time for another. */
  predicate GoesOn(o: Attempts, timeout: int, n: nat)
    requires n <= |o|
  {
    n == 0 || (TimeLeft(o, timeout, n) > MIN_TIMEOUT && GoesOn(o, timeout, n - 1))
  }

  /** More than 50 milliseconds are left after attempt `i`. */
  predicate EnoughLeft(o: Attempts, timeout: int, i: nat)
    requires i <= |o|
  {
    TimeLeft(o, timeout, i) > 50
  }

  /** The attempts go on exactly as long as that is so. */
  lemma {:induction false} GoesOnMeaning(o: Attempts, timeout: int, n: nat)
    requires n <= |o|
    ensures GoesOn(o, timeout, n) <==> forall i :: 1 <= i <= n ==> EnoughLeft(o, timeout, i)
  {
    if n > 0 {
      GoesOnMeaning(o, timeout, n - 1);
      assert GoesOn(o, timeout, n) <==> EnoughLeft(o, timeout, n) && GoesOn(o, timeout, n - 1);
    }
  }

  datatype ResolveResult = ResolveResult(addresses: set<Address>, error: Option<string>)

  /** The list as it is left after `n` attempts: successes, then resolvers not tried, then failures. */
  function Rearranged(list: seq<Resolver>, o: Attempts, n: nat): seq<Resolver>
    requires n <= |list| == |o|
  {
    Chosen(list, o, n, true) + list[n..] + Chosen(list, o, n, false)
  }

  // ----- the loop ---------------------------------------------------------------------------------------------

  /** The list with element `i` moved to the end. */
  function MovedBack(s: seq<Resolver>, i: nat): seq<Resolver>
    requires i < |s|
  {
    s[..i] + s[i + 1..] + [s[i]]
  }

  function Failures(o: Attempts, n: nat): (r: nat)
    requires n <= |o|
    ensures r <= n
  {
    if n == 0 then 0 else Failures(o, n - 1) + if o[n - 1].error.Some? then 1 else 0
  }

  /** The list as the loop moves its elements, one round after the other. */
  function Order(list: seq<Resolver>, o: Attempts, n: nat): (r: seq<Resolver>)
    requires n <= |list| == |o|
    ensures |r| == |list|
  {
    if n == 0 then list
    else
      var before := Order(list, o, n - 1);
      if o[n - 1].error.None? then before else MovedBack(before, n - 1 - Failures(o, n - 1))
  }

  lemma {:induction false} SuccessCount(list: seq<Resolver>, o: Attempts, n: nat)
    requires n <= |list| == |o|
    ensures |Chosen(list, o, n, true)| == n - Failures(o, n)
  {
    if n > 0 {
      SuccessCount(list, o, n - 1);
    }
  }

  lemma {:induction false} OrderMeaning(list: seq<Resolver>, o: Attempts, n: nat)
    requires n <= |list| == |o|
    ensures Order(list, o, n) == Rearranged(list, o, n)
  {
    if n > 0 {
      OrderMeaning(list, o, n - 1);
      OrderStep(list, o, n - 1);
    }
  }

  lemma OrderStep(list: seq<Resolver>, o: Attempts, n: nat)
    requires n < |list| == |o| && Order(list, o, n) == Rearranged(list, o, n)
    ensures Order(list, o, n + 1) == Rearranged(list, o, n + 1)
  {
    SuccessCount(list, o, n);
    RearrangedStep(list, o, n);
  }

  /** The resolver of round `n` is the one that was at that place. */
  lemma InTurn(list: seq<Resolver>, o: Attempts, n: nat)
    requires n < |list| == |o|
    ensures Order(list, o, n)[n - Failures(o, n)] == list[n]
  {
    OrderMeaning(list, o, n);
    SuccessCount(list, o, n);
    RearrangedStep(list, o, n);
  }

  /** One more failure moves its resolver from the middle of the list to the end. */
  lemma RearrangedStep(list: seq<Resolver>, o: Attempts, n: nat)
    requires n < |list| == |o|
    ensures var now, curr := Rearranged(list, o, n), |Chosen(list, o, n, true)|;
            && |now| == |list| && curr < |now| && now[curr] == list[n]
            && Rearranged(list, o, n + 1) == if o[n].error.None? then now else MovedBack(now, curr)
  {
    var ok, bad := Chosen(list, o, n, true), Chosen(list, o, n, false);
    ChosenCount(list, o, n);
    assert list[n..] == [list[n]] + list[n + 1..];
    MoveToBack(ok, list[n], list[n + 1..], bad);
  }

  lemma MoveToBack(a: seq<Resolver>, x: Resolver, b: seq<Resolver>, c: seq<Resolver>)
    ensures var now := a + ([x] + b) + c;
            now[|a|] == x && now == (a + [x]) + b + c && MovedBack(now, |a|) == a + b + (c + [x])
  {
    var now := a + ([x] + b) + c;
    assert now[..|a|] == a && now[|a| + 1..] == b + c;
  }

  lemma {:induction false} ChosenCount(list: seq<Resolver>, o: Attempts, n: nat)
    requires n <= |list| == |o|
    ensures |Chosen(list, o, n, true)| + |Chosen(list, o, n, false)| == n
  {
    if n > 0 {
      ChosenCount(list, o, n - 1);
    }
  }

  /** Addresses are there exactly when some attempt succeeded. */
  lemma {:induction false} AddressesMeanSuccess(o: Attempts, n: nat)
    requires n <= |o| && forall i :: 0 <= i < |o| && o[i].error.None? ==> o[i].addresses != []
    ensures Gathered(o, n) != {} <==> AnySuccess(o, n)
  {
    if n > 0 {
      AddressesMeanSuccess(o, n - 1);
      if o[n - 1].error.None? {
        assert o[n - 1].addresses[0] in Elements(o[n - 1].addresses);
      }
    }
  }

  /** The variables of the loop. */
  datatype Loop = Loop(resolvers: seq<Resolver>, failed: int, addrs: set<Address>, error: Option<string>, left: int)

  ghost function After(list: seq<Resolver>, o: Attempts, timeout: int, n: nat): Loop
    requires n <= |list| == |o|
  {
    Loop(Order(list, o, n), Failures(o, n), Gathered(o, n), Errors(o, n), TimeLeft(o, timeout, n))
  }

  /** One round, on the resolver at the current place. */
  method TryOne(env: Env, was: Loop, curr: int,
                ghost list: seq<Resolver>, ghost o: Attempts, ghost timeout: int, ghost n: nat)
      returns (now: Loop)
    requires n < |list| == |o| && was == After(list, o, timeout, n) && curr == n - was.failed
    requires o[n] == env.resolve(list[n], Max(was.left / 2, MIN_TIMEOUT)) && (was.addrs == {} <==> !AnySuccess(o, n))
    ensures now == After(list, o, timeout, n + 1)
    ensures 0 <= curr < |was.resolvers| && was.resolvers[curr] == list[n]
  {
    InTurn(list, o, n);
    var attempt := env.resolve(was.resolvers[curr], Max(was.left / 2, MIN_TIMEOUT));
    var left := was.left - attempt.elapsed;
    if attempt.error.Some? {
      var resolvers := was.resolvers[..curr] + was.resolvers[curr + 1..] + [was.resolvers[curr]];
      var error := was.error;
      if was.addrs == {} {
        error := Some((if error.Some? then error.value else "") + attempt.error.value + "\n");
      }
      now := Loop(resolvers, was.failed + 1, was.addrs, error, left);
    } else {
      now := Loop(was.resolvers, was.failed, was.addrs + Elements(attempt.addresses), None, left);
    }
  }

  /** The loop of `resolve` over the list; the attempts made are those on the first resolvers, in their order. */
  method TryResolvers(env: Env, list: seq<Resolver>, timeout: int, ghost o: Attempts)
      returns (resolvers: seq<Resolver>, result: ResolveResult, tried: seq<Resolver>)
    requires Sound(env) && AllAnswers(env, list, timeout, o) && |list| > 0
    ensures StopsAt(o, timeout, |tried|) && tried == list[..|tried|]
    ensures resolvers == Order(list, o, |tried|)
    ensures result == ResolveResult(Gathered(o, |tried|), Errors(o, |tried|))
    ensures result.error.Some? <==> result.addresses == {}
  {
    var loop := Loop(list, 0, {}, None, timeout);
    var n, curr := 0, 0;
    tried := [];
    AnswersAreSound(env, list, timeout, o);
    while n < |list|
      invariant 0 <= n <= |list| && curr == n - loop.failed && tried == list[..n]
      invariant loop == After(list, o, timeout, n) && GoesOn(o, timeout, n)
    {
      AnswerAt(env, list, timeout, o, |o|, n);
      AddressesMeanSuccess(o, n);
      var was := loop;
      loop := TryOne(env, was, curr, list, o, timeout, n);
      tried := tried + [was.resolvers[curr]];
      n := n + 1;
      curr := n - loop.failed;
      if loop.left <= MIN_TIMEOUT {
        break;
      }
    }
    AddressesMeanSuccess(o, n);
    resolvers, result := loop.resolvers, ResolveResult(loop.addrs, loop.error);
  }

  /** No resolver is lost or doubled. */
  lemma OrderIsPermutation(list: seq<Resolver>, o: Attempts, n: nat)
    requires n <= |list| == |o|
    ensures multiset(Order(list, o, n)) == multiset(list)
  {
    OrderMeaning(list, o, n);
    ChosenOrNot(list, o, n, Chosen(list, o, n, true), Chosen(list, o, n, false));
    TakenApart(list, n, Chosen(list, o, n, true), Chosen(list, o, n, false));
  }

  lemma TakenApart(list: seq<Resolver>, n: nat, good: seq<Resolver>, bad: seq<Resolver>)
    requires n <= |list| && multiset(good) + multiset(bad) == multiset(list[..n])
    ensures multiset(good + list[n..] + bad) == multiset(list)
  {
    assert list == list[..n] + list[n..];
  }

  lemma ChosenOrNot(list: seq<Resolver>, o: Attempts, n: nat, good: seq<Resolver>, bad: seq<Resolver>)
    requires n <= |list| == |o| && good == Chosen(list, o, n, true) && bad == Chosen(list, o, n, false)
    ensures multiset(good) + multiset(bad) == multiset(list[..n])
  {
    EachGoesToOne(list, o);
    AllGoToOne(list, ChosenUpTo(list, o, true), ChosenUpTo(list, o, false), n);
  }

  ghost function ChosenUpTo(list: seq<Resolver>, o: Attempts, ok: bool): nat -> seq<Resolver>
    requires |list| == |o|
  {
    (n: nat) => if n <= |list| then Chosen(list, o, n, ok) else []
  }

  lemma EachGoesToOne(list: seq<Resolver>, o: Attempts)
    requires |list| == |o|
    ensures var good, bad := ChosenUpTo(list, o, true), ChosenUpTo(list, o, false);
            forall k :: 0 <= k < |list| ==> GoesToOne(list, k, good(k), bad(k), good(k + 1), bad(k + 1))
  {
  }

  /** Resolver `n` is added to one of the two lists. */
  ghost predicate GoesToOne(list: seq<Resolver>, n: nat, good: seq<Resolver>, bad: seq<Resolver>,
                            good': seq<Resolver>, bad': seq<Resolver>)
    requires n < |list|
  {
    (good' == good + [list[n]] && bad' == bad) || (good' == good && bad' == bad + [list[n]])
  }

  lemma {:induction false} AllGoToOne(list: seq<Resolver>, good: nat -> seq<Resolver>, bad: nat -> seq<Resolver>, n: nat)
    requires n <= |list| && good(0) == bad(0) == []
    requires forall k :: 0 <= k < n ==> GoesToOne(list, k, good(k), bad(k), good(k + 1), bad(k + 1))
    ensures multiset(good(n)) + multiset(bad(n)) == multiset(list[..n])
    decreases n
  {
    if n > 0 {
      AllGoToOne(list, good, bad, n - 1);
      assert GoesToOne(list, n - 1, good(n - 1), bad(n - 1), good(n - 1 + 1), bad(n - 1 + 1));
      OneMore(list, n - 1, good(n - 1), bad(n - 1), good(n), bad(n));
    }
  }

  lemma OneMore(list: seq<Resolver>, n: nat, good: seq<Resolver>, bad: seq<Resolver>,
                good': seq<Resolver>, bad': seq<Resolver>)
    requires n < |list| && multiset(good) + multiset(bad) == multiset(list[..n])
    requires GoesToOne(list, n, good, bad, good', bad')
    ensures multiset(good') + multiset(bad') == multiset(list[..n + 1])
  {
    assert list[..n + 1] == list[..n] + [list[n]];
  }

  /** There is such a list of answers. */
  lemma {:induction false} AnswersExist(env: Env, list: seq<Resolver>, timeout: int) returns (o: Attempts)
    ensures AllAnswers(env, list, timeout, o)
  {
    if |list| == 0 {
      o := [];
    } else {
      var n := |list| - 1;
      var p := AnswersExist(env, list[..n], timeout);
      o := p + [env.resolve(list[n], Max(TimeLeft(p, timeout, n) / 2, MIN_TIMEOUT))];
      SameAnswers(env, list, timeout, p, o, n);
    }
  }

  lemma {:induction false} SameAnswers(env: Env, list: seq<Resolver>, timeout: int, p: Attempts, o: Attempts, i: nat)
    requires i <= |p| < |list| && p <= o && Answers(env, list[..|p|], timeout, p, i)
    ensures TimeLeft(o, timeout, i) == TimeLeft(p, timeout, i) && Answers(env, list, timeout, o, i)
  {
    if i > 0 {
      SameAnswers(env, list, timeout, p, o, i - 1);
      assert o[i - 1] == p[i - 1] && list[i - 1] == list[..|p|][i - 1];
    }
  }

  // ----- the bootstrapper ---------------------------------------------------------------------------------------

  class Bootstrapper {
    const timeout: int
    const serverAddress: Option<Address>
    const failTimes: Disabler.Times
    var resolvers: seq<Resolver>
    var resolvedCache: set<Address>

    constructor (timeout: int, serverAddress: Option<Address>, resolvers: seq<Resolver>)
      ensures this.resolvers == resolvers && resolvedCache == {} && fresh(failTimes)
      ensures failTimes.State() == Disabler.FailTimes(0, 0)
    {
      this.timeout, this.serverAddress := timeout, serverAddress;
      this.resolvers, this.resolvedCache := resolvers, {};
      this.failTimes := new Disabler.Times();
    }

    method Resolve(env: Env) returns (result: ResolveResult)
      requires Sound(env)
      modifies `resolvers
      ensures result.error.Some? <==> result.addresses == {}
      ensures serverAddress.Some? ==> result == ResolveResult({serverAddress.value}, None) && resolvers == old(resolvers)
      ensures serverAddress.None? && |old(resolvers)| == 0 ==>
                result == ResolveResult({}, Some("Empty bootstrap list")) && resolvers == old(resolvers)
      ensures serverAddress.None? && |old(resolvers)| > 0 ==>
                exists o, n :: AllAnswers(env, old(resolvers), timeout, o) && StopsAt(o, timeout, n) &&
                               resolvers == Rearranged(old(resolvers), o, n) &&
                               result == ResolveResult(Gathered(o, n), Errors(o, n))
      ensures multiset(resolvers) == multiset(old(resolvers))
    {
      if serverAddress.Some? {
        return ResolveResult({serverAddress.value}, None);
      }
      if |resolvers| == 0 {
        return ResolveResult({}, Some("Empty bootstrap list"));
      }
      ghost var list := resolvers;
      ghost var o := AnswersExist(env, list, timeout);
      var tried;
      resolvers, result, tried := TryResolvers(env, resolvers, timeout, o);
      OrderIsPermutation(list, o, |tried|);
      OrderMeaning(list, o, |tried|);
    }

    /** A cached answer is returned as it is; otherwise bootstrapping is refused or tried, and the answer is kept. */
    method Get(env: Env, now: int, end: int) returns (result: ResolveResult)
      requires Sound(env)
      modifies this, failTimes
      ensures result.error.Some? <==> result.addresses == {}
      ensures old(resolvedCache) != {} ==>
                result == ResolveResult(old(resolvedCache), None) && resolvedCache == old(resolvedCache) &&
                failTimes.State() == old(failTimes.State()) && resolvers == old(resolvers)
      ensures old(resolvedCache) == {} && Disabler.Refuses(old(failTimes.State()), now) ==>
                result.error.Some? && resolvedCache == {} && failTimes.State() == old(failTimes.State()) &&
                resolvers == old(resolvers)
      ensures old(resolvedCache) == {} && !Disabler.Refuses(old(failTimes.State()), now) ==>
                && resolvedCache == result.addresses
                && failTimes.State() == Disabler.AfterUpdate(Disabler.AfterCheck(old(failTimes.State()), now),
                                                             result.error.Some?, end)
                && (serverAddress.Some? ==>
                      result == ResolveResult({serverAddress.value}, None) && resolvers == old(resolvers))
                && (serverAddress.None? && |old(resolvers)| == 0 ==>
                      result == ResolveResult({}, Some("Empty bootstrap list")) && resolvers == old(resolvers))
                && (serverAddress.None? && |old(resolvers)| > 0 ==>
                      exists o, n :: AllAnswers(env, old(resolvers), timeout, o) && StopsAt(o, timeout, n) &&
                                     resolvers == Rearranged(old(resolvers), o, n) &&
                                     result == ResolveResult(Gathered(o, n), Errors(o, n)))
      ensures multiset(resolvers) == multiset(old(resolvers))
    {
      if resolvedCache != {} {
        return ResolveResult(resolvedCache, None);
      }
      var remaining := failTimes.Check(now);
      if remaining.Some? {
        return ResolveResult({}, Some("Bootstrapping this server is disabled, too many failures"));
      }
      result := Resolve(env);
      failTimes.Update(result.error.Some?, end);
      resolvedCache := result.addresses;
    }

    method RemoveResolved(a: Address)
      modifies `resolvedCache
      ensures resolvedCache == old(resolvedCache) - {a}
    {
      resolvedCache := resolvedCache - {a};
    }
  }
}

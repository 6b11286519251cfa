/** DNS messages over a stream (section 4.2.2 of RFC 1035): the payload parser and the framing of written payloads in
    proxy/src/dnsproxy_listener.cpp. */
module TcpFraming {
  import opened Text

  // ----- a stream parsed at once --------------------------------------------------------------------------

  /** A 16-bit number in network order. */
  function Word(high: int, low: int): int {
    high * 256 + low
  }

  function SizeAt(s: Bytes): nat
    requires |s| >= 2
  {
    Word(s[0], s[1])
  }

  /** A size and all the bytes it announces are there. */
  predicate HasPayload(s: Bytes) {
    |s| >= 2 && |s| >= 2 + SizeAt(s)
  }

  function Payloads(s: Bytes): seq<Bytes> {
    if HasPayload(s) then [s[2..2 + SizeAt(s)]] + Payloads(s[2 + SizeAt(s)..]) else []
  }

  function Rest(s: Bytes): Bytes {
    if HasPayload(s) then Rest(s[2 + SizeAt(s)..]) else s
  }

  lemma FirstOf(a: Bytes, b: Bytes)
    requires HasPayload(a)
    ensures Payloads(a + b) == [a[2..2 + SizeAt(a)]] + Payloads(a[2 + SizeAt(a)..] + b)
    ensures Rest(a + b) == Rest(a[2 + SizeAt(a)..] + b)
  {
    var n := 2 + SizeAt(a);
    assert SizeAt(a + b) == SizeAt(a);
    assert (a + b)[2..n] == a[2..n];
    assert (a + b)[n..] == a[n..] + b;
  }

  /** More bytes only continue where the parse of the first ones stopped. */
  lemma {:induction false} ParseContinues(a: Bytes, b: Bytes)
    ensures Payloads(a + b) == Payloads(a) + Payloads(Rest(a) + b)
    ensures Rest(a + b) == Rest(Rest(a) + b)
    decreases |a|
  {
    if HasPayload(a) {
      var head, tail := a[2..2 + SizeAt(a)], a[2 + SizeAt(a)..];
      FirstOf(a, b);
      ParseContinues(tail, b);
      Regroup([head], Payloads(tail), Payloads(Rest(tail) + b));
    } else {
      assert [] + Payloads(a + b) == Payloads(a + b);
    }
  }

  /** What was emitted and what is buffered account for what was pushed. */
  ghost predicate Accounts(emitted: seq<Bytes>, data: Bytes, pushed: Bytes) {
    emitted + Payloads(data) == Payloads(pushed) && Rest(data) == Rest(pushed)
  }

  // ----- the parser ---------------------------------------------------------------------------------------

  datatype State = ReadSize | ReadPayload

  class PayloadParser {
    var state: State
    var size: nat
    var data: Bytes

    ghost predicate Valid()
      reads this
    {
      state.ReadPayload? ==> |data| >= 2 && size == SizeAt(data)
    }

    constructor ()
      ensures Valid() && data == []
    {
      state, size, data := ReadSize, 0, [];
    }

    method PushData(chunk: Bytes)
      requires Valid()
      modifies this
      ensures Valid() && data == old(data) + chunk
    {
      data := data + chunk;
    }

    method NextPayload() returns (out: Option<Bytes>)
      requires Valid()
      modifies this
      ensures Valid()
      ensures out.Some? <==> HasPayload(old(data))
      ensures out.Some? ==> Payloads(old(data)) == [out.value] + Payloads(data) && Rest(old(data)) == Rest(data)
      ensures out.Some? ==> |data| < |old(data)|
      ensures out.None? ==> data == old(data)
    {
      if state.ReadSize? {
        if |data| < 2 {
          return None;
        }
        size := Word(data[0], data[1]);
        state := ReadPayload;
      }
      if |data| < 2 + size {
        return None;
      }
      out := Some(data[2..2 + size]);
      data := data[2 + size..];
      state := ReadSize;
    }

    /** One more payload, if there is one. */
    method Take(emitted: seq<Bytes>, ghost all: Bytes) returns (found: bool, more: seq<Bytes>)
      requires Valid() && Accounts(emitted, data, all)
      modifies this
      ensures Valid() && Accounts(more, data, all)
      ensures found <==> HasPayload(old(data))
      ensures |more| == |emitted| + (if found then 1 else 0)
      ensures |data| <= |old(data)| && (found <==> |data| < |old(data)|)
      ensures !found ==> data == old(data)
    {
      var out := NextPayload();
      found, more := out.Some?, emitted;
      if found {
        Regroup(emitted, [out.value], Payloads(data));
        more := emitted + [out.value];
      }
    }

    /** What each read of a connection does: a persistent one takes all that is complete, any other one stops reading
        after the first. */
    method Read(chunk: Bytes, persistent: bool) returns (payloads: seq<Bytes>, stopped: bool)
      requires Valid()
      modifies this
      ensures Valid() && Accounts(payloads, data, old(data) + chunk)
      ensures persistent ==> !stopped && payloads == Payloads(old(data) + chunk) && data == Rest(old(data) + chunk)
      ensures !persistent ==>
                (stopped <==> HasPayload(old(data) + chunk)) && |payloads| == (if stopped then 1 else 0)
    {
      PushData(chunk);
      ghost var all := data;
      stopped, payloads := Take([], all);
      while stopped && persistent
        invariant Valid() && Accounts(payloads, data, all) && (!stopped ==> !HasPayload(data))
        invariant !persistent ==> (stopped <==> HasPayload(all)) && |payloads| == (if stopped then 1 else 0)
        decreases |data| + (if stopped then 1 else 0)
      {
        stopped, payloads := Take(payloads, all);
      }
      assert payloads + [] == payloads;
    }
  }

  // ----- any interleaving -----------------------------------------------------------------------------------

  datatype Op = Push(chunk: Bytes) | Next

  /** All bytes pushed by the first `n` operations. */
  function Pushed(ops: seq<Op>, n: nat): Bytes
    requires n <= |ops|
  {
    if n == 0 then [] else Pushed(ops, n - 1) + (if ops[n - 1].Push? then ops[n - 1].chunk else [])
  }

  method Do(parser: PayloadParser, op: Op, emitted: seq<Bytes>, ghost pushed: Bytes) returns (more: seq<Bytes>)
    requires parser.Valid() && Accounts(emitted, parser.data, pushed)
    modifies parser
    ensures parser.Valid() && Accounts(more, parser.data, pushed + (if op.Push? then op.chunk else []))
  {
    more := emitted;
    if op.Push? {
      PushKeeps(emitted, parser.data, pushed, op.chunk);
      parser.PushData(op.chunk);
    } else {
      assert pushed + [] == pushed;
      var found;
      found, more := parser.Take(emitted, pushed);
    }
  }

  /** However the stream is cut into pushes, and whenever payloads are asked for, those handed out and those still to
      come are the payloads of the whole stream, and the same bytes are left. */
  method Run(parser: PayloadParser, ops: seq<Op>) returns (emitted: seq<Bytes>)
    requires parser.Valid() && parser.data == []
    modifies parser
    ensures parser.Valid() && Accounts(emitted, parser.data, Pushed(ops, |ops|))
    ensures !HasPayload(parser.data) ==>
              emitted == Payloads(Pushed(ops, |ops|)) && parser.data == Rest(Pushed(ops, |ops|))
  {
    emitted := [];
    for i := 0 to |ops|
      invariant parser.Valid() && Accounts(emitted, parser.data, Pushed(ops, i))
    {
      emitted := Do(parser, ops[i], emitted, Pushed(ops, i));
    }
    assert emitted + [] == emitted;
  }

  lemma PushKeeps(emitted: seq<Bytes>, data: Bytes, pushed: Bytes, chunk: Bytes)
    requires Accounts(emitted, data, pushed)
    ensures Accounts(emitted, data + chunk, pushed + chunk)
  {
    ParseContinues(data, chunk);
    ParseContinues(pushed, chunk);
    Regroup(emitted, Payloads(data), Payloads(Rest(data) + chunk));
  }

  // ----- framing --------------------------------------------------------------------------------------------

  const MAX_PAYLOAD := 65535

  /** A payload behind its size, of which 16 bits are kept. */
  function Frame(payload: Bytes): Bytes {
    var size := |payload| % 65536;
    [size / 256, size % 256] + payload
  }

  function Framed(list: seq<Bytes>, n: nat): Bytes
    requires n <= |list|
    decreases |list| - n
  {
    if n == |list| then [] else Frame(list[n]) + Framed(list, n + 1)
  }

  /** The first two bytes of a stream are the size of its first payload, the higher one first. */
  lemma FirstPayload(s: Bytes, n: nat)
    requires |s| >= 2 && n == 256 * (s[0] as int) + s[1] as int
    ensures |s| < 2 + n ==> Payloads(s) == [] && Rest(s) == s
    ensures |s| >= 2 + n ==> Payloads(s) == [s[2..2 + n]] + Payloads(s[2 + n..]) && Rest(s) == Rest(s[2 + n..])
  {
    SizeBytes(s[0], s[1]);
    if |s| >= 2 + n {
      PayloadAndRest(s, s[2..2 + n], s[2 + n..]);
    }
  }

  lemma SizeBytes(high: Byte, low: Byte)
    ensures Word(high, low) == 256 * (high as int) + low as int
  {
  }

  lemma PayloadAndRest(s: Bytes, head: Bytes, rest: Bytes)
    requires HasPayload(s) && head == s[2..2 + SizeAt(s)] && rest == s[2 + SizeAt(s)..]
    ensures Payloads(s) == [head] + Payloads(rest) && Rest(s) == Rest(rest)
  {
  }

  /** A frame starts with the size of its payload in two bytes, the higher one first. */
  lemma FrameBytes(p: Bytes)
    requires |p| <= 65535
    ensures |Frame(p)| == 2 + |p|
    ensures 256 * (Frame(p)[0] as int) + Frame(p)[1] as int == |p| && Frame(p)[2..] == p
  {
    FittingSize(|p|);
    BehindTwo(|p| / 256, |p| % 256, p);
  }

  lemma FittingSize(n: nat)
    requires n <= 65535
    ensures n % 65536 == n && n / 256 < 256 && 256 * (n / 256) + n % 256 == n
  {
  }

  lemma BehindTwo(a: Byte, b: Byte, p: Bytes)
    ensures var s := [a, b] + p; |s| == 2 + |p| && s[0] == a && s[1] == b && s[2..] == p
  {
  }

  lemma WordOf(n: nat)
    requires n < 65536
    ensures Word(n / 256, n % 256) == n
  {
  }

  lemma FrameParts(p: Bytes, rest: Bytes)
    ensures var s, n := Frame(p) + rest, |p| % 65536;
            Payloads(s) == [p[..n]] + Payloads(p[n..] + rest) && Rest(s) == Rest(p[n..] + rest)
  {
    var s, n := Frame(p) + rest, |p| % 65536;
    WordOf(n);
    assert s[2..2 + n] == p[..n];
    assert s[2 + n..] == p[n..] + rest;
  }

  /** A frame is read back as its payload exactly when the size of that fits into 16 bits. */
  lemma FrameParsesBack(p: Bytes, rest: Bytes)
    ensures |p| <= MAX_PAYLOAD ==> Payloads(Frame(p) + rest) == [p] + Payloads(rest) && Rest(Frame(p) + rest) == Rest(rest)
    ensures |p| > MAX_PAYLOAD ==> Payloads(Frame(p) + rest) != [] && |Payloads(Frame(p) + rest)[0]| < |p|
  {
    FrameParts(p, rest);
    PartsOfFrame(p, rest, |p| % 65536, Payloads(Frame(p) + rest), Rest(Frame(p) + rest));
  }

  lemma PartsOfFrame(p: Bytes, rest: Bytes, n: nat, parsed: seq<Bytes>, left: Bytes)
    requires n == |p| % 65536 && parsed == [p[..n]] + Payloads(p[n..] + rest) && left == Rest(p[n..] + rest)
    ensures |p| <= MAX_PAYLOAD ==> parsed == [p] + Payloads(rest) && left == Rest(rest)
    ensures |p| > MAX_PAYLOAD ==> parsed != [] && |parsed[0]| < |p|
  {
    if |p| <= MAX_PAYLOAD {
      assert p[..n] == p && p[n..] + rest == rest;
    }
  }

  /** Parsing what was framed gives the payloads back, with nothing left, exactly when each fits. */
  lemma {:induction false} FramesParseBack(list: seq<Bytes>, n: nat)
    requires n <= |list|
    ensures Payloads(Framed(list, n)) == list[n..] <==> AllFit(list, n)
    ensures AllFit(list, n) ==> Rest(Framed(list, n)) == []
    decreases |list| - n
  {
    if n < |list| {
      FrameParsesBack(list[n], Framed(list, n + 1));
      FramesParseBack(list, n + 1);
      FirstDecides(list, n, Payloads(Framed(list, n)), Payloads(Framed(list, n + 1)));
    }
  }

  /** A longer payload is read as the part of it that its cut size announces, wherever it stands in the list. */
  lemma LongPayloadIsCut(list: seq<Bytes>, k: nat)
    requires k < |list| && |list[k]| > MAX_PAYLOAD
    ensures var p := list[k]; Payloads(Framed(list, k)) != [] && Payloads(Framed(list, k))[0] == p[..|p| % 65536] != p
    ensures Payloads(Framed(list, 0)) != list
  {
    FrameParts(list[k], Framed(list, k + 1));
    FramesParseBack(list, 0);
    OneDoesNotFit(list, 0, k);
    assert list[0..] == list;
  }

  lemma {:induction false} OneDoesNotFit(list: seq<Bytes>, n: nat, k: nat)
    requires n <= k < |list| && |list[k]| > MAX_PAYLOAD
    ensures !AllFit(list, n)
    decreases |list| - n
  {
    if n < k {
      OneDoesNotFit(list, n + 1, k);
    }
  }

  predicate AllFit(list: seq<Bytes>, n: nat)
    requires n <= |list|
    decreases |list| - n
  {
    n < |list| ==> |list[n]| <= MAX_PAYLOAD && AllFit(list, n + 1)
  }

  lemma FirstDecides(list: seq<Bytes>, n: nat, parsed: seq<Bytes>, later: seq<Bytes>)
    requires n < |list|
    requires |list[n]| <= MAX_PAYLOAD ==> parsed == [list[n]] + later
    requires |list[n]| > MAX_PAYLOAD ==> parsed != [] && |parsed[0]| < |list[n]|
    ensures parsed == list[n..] <==> |list[n]| <= MAX_PAYLOAD && later == list[n + 1..]
  {
    assert list[n..] == [list[n]] + list[n + 1..];
    assert list[n..][0] == list[n];
    if |list[n]| <= MAX_PAYLOAD {
      assert parsed[1..] == later;
    }
  }

  /** What one side frames, the other reads, whatever the pieces the stream arrives in. */
  method Transfer(parser: PayloadParser, list: seq<Bytes>, ops: seq<Op>) returns (emitted: seq<Bytes>)
    requires parser.Valid() && parser.data == [] && AllFit(list, 0) && Pushed(ops, |ops|) == Framed(list, 0)
    modifies parser
    ensures emitted <= list && (!HasPayload(parser.data) ==> emitted == list && parser.data == [])
  {
    emitted := Run(parser, ops);
    FramesParseBack(list, 0);
    assert list[0..] == list;
  }
}

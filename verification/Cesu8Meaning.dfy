/** What the transcoder writes for valid UTF-8: the UTF-16 code units of the text, each as one group of
    one to three bytes (section 2 of Unicode Technical Report #26). */
module Cesu8Meaning {
  import opened Text
  import opened Cesu8

  /** A Unicode scalar value other than NUL, which ends a C string. */
  type Scalar = c: int | 0 < c < 0x110000 && !(0xd800 <= c < 0xe000) witness 1

  type Unit = u: int | 0 <= u < 0x10000

  /** UTF-8 of one scalar value (table 3-6 of the Unicode standard). */
  function Utf8Char(c: Scalar): (r: Bytes)
    ensures 1 <= |r| <= 4
  {
    if c < 0x80 then [c]
    else if c < 0x800 then [0xc0 + c / 0x40, 0x80 + c % 0x40]
    else if c < 0x10000 then [0xe0 + c / 0x1000, 0x80 + c / 0x40 % 0x40, 0x80 + c % 0x40]
    else [0xf0 + c / 0x40000, 0x80 + c / 0x1000 % 0x40, 0x80 + c / 0x40 % 0x40, 0x80 + c % 0x40]
  }

  function Utf8(cs: seq<Scalar>): Bytes {
    if cs == [] then [] else Utf8(cs[..|cs| - 1]) + Utf8Char(cs[|cs| - 1])
  }

  /** UTF-16 of one scalar value: itself, or a high and a low surrogate. */
  function Utf16Char(c: Scalar): seq<Unit> {
    if c < 0x10000 then [c] else [0xd800 + (c - 0x10000) / 0x400, 0xdc00 + (c - 0x10000) % 0x400]
  }

  function Utf16(cs: seq<Scalar>): seq<Unit> {
    if cs == [] then [] else Utf16(cs[..|cs| - 1]) + Utf16Char(cs[|cs| - 1])
  }

  /** One code unit as a group of one to three bytes, a surrogate like any other. */
  function UnitBytes(u: Unit): Bytes {
    if u < 0x80 then [u]
    else if u < 0x800 then [0xc0 + u / 0x40, 0x80 + u % 0x40]
    else [0xe0 + u / 0x1000, 0x80 + u / 0x40 % 0x40, 0x80 + u % 0x40]
  }

  function UnitsBytes(us: seq<Unit>): Bytes {
    if us == [] then [] else UnitsBytes(us[..|us| - 1]) + UnitBytes(us[|us| - 1])
  }

  /** Reads groups of bytes back into code units. */
  function DecodeUnits(bytes: Bytes): Option<seq<Unit>> {
    if bytes == [] then Some([])
    else if bytes[0] < 0x80 then Prepend(bytes[0], DecodeUnits(bytes[1..]))
    else if 0xc0 <= bytes[0] < 0xe0 && |bytes| >= 2 && IsContinuation(bytes[1]) then
      Prepend(Group2(bytes[0], bytes[1]), DecodeUnits(bytes[2..]))
    else if 0xe0 <= bytes[0] < 0xf0 && |bytes| >= 3 && IsContinuation(bytes[1]) && IsContinuation(bytes[2]) then
      Prepend(Group3(bytes[0], bytes[1], bytes[2]), DecodeUnits(bytes[3..]))
    else None
  }

  function Group2(a: int, b: int): Unit {
    a % 0x20 * 0x40 + b % 0x40
  }

  function Group3(a: int, b: int, c: int): Unit {
    a % 0x10 * 0x1000 + b % 0x40 * 0x40 + c % 0x40
  }

  function Prepend(u: Unit, rest: Option<seq<Unit>>): Option<seq<Unit>> {
    if rest.None? then None else Some([u] + rest.value)
  }

  // ----- one character ------------------------------------------------------------------------------

  /** The state after a complete character, started between characters. */
  ghost predicate Adds(before: ConvState, after: ConvState, c: Scalar) {
    after.remaining == 0 && after.out == before.out + UnitsBytes(Utf16Char(c))
  }

  lemma UnitsBytesOne(u: Unit)
    ensures UnitsBytes([u]) == UnitBytes(u)
  {
    assert [u][..0] == [];
    assert UnitsBytes([]) + UnitBytes(u) == UnitBytes(u);
  }

  lemma UnitsBytesTwo(u: Unit, v: Unit)
    ensures UnitsBytes([u, v]) == UnitBytes(u) + UnitBytes(v)
  {
    assert [u, v][..1] == [u];
    UnitsBytesOne(u);
  }

  lemma EmittedIsUnits(c: Scalar)
    requires c >= 0x80
    ensures Emitted(c) == UnitsBytes(Utf16Char(c))
  {
    if c < 0x10000 {
      UnitsBytesOne(c);
      EmittedOne(c);
    } else {
      EmittedPair(c);
    }
  }

  lemma EmittedOne(c: Unit)
    requires c >= 0x80
    ensures Emitted(c) == UnitBytes(c)
  {
    if c < 0x800 {
      assert c / 0x40 % 0x20 == c / 0x40;
    } else {
      assert c / 0x1000 % 0x10 == c / 0x1000;
    }
  }

  lemma EmittedPair(c: Scalar)
    requires c >= 0x10000
    ensures Emitted(c) == UnitsBytes(Utf16Char(c))
  {
    var high, low := 0xd800 + (c - 0x10000) / 0x400, 0xdc00 + (c - 0x10000) % 0x400;
    UnitsBytesTwo(high, low);
    HighSurrogate(c);
    LowSurrogate(c);
  }

  lemma HighSurrogate(c: Scalar)
    requires c >= 0x10000
    ensures UnitBytes(0xd800 + (c - 0x10000) / 0x400)
            == [0xed, 0xa0 + (c / 0x10000 - 1) % 0x10, 0x80 + c / 0x400 % 0x40]
  {
    HighBits(c);
    HighBytes((c - 0x10000) / 0x400);
  }

  lemma HighBytes(h: nat)
    requires h < 0x400
    ensures UnitBytes(0xd800 + h) == [0xed, 0xa0 + h / 0x40, 0x80 + h % 0x40]
  {
    assert (0xd800 + h) / 0x40 == 0x360 + h / 0x40;
    assert (0xd800 + h) % 0x40 == h % 0x40;
  }

  lemma HighBits(c: nat)
    requires 0x10000 <= c < 0x110000
    ensures var h := (c - 0x10000) / 0x400;
            h < 0x400 && h / 0x40 == (c / 0x10000 - 1) % 0x10 && h % 0x40 == c / 0x400 % 0x40
  {
    DividedTwice(c);
    LessSixtyFour(c / 0x400);
  }

  lemma DividedTwice(c: nat)
    requires c >= 0x10000
    ensures c / 0x400 / 0x40 == c / 0x10000 && (c - 0x10000) / 0x400 == c / 0x400 - 0x40
  {
  }

  lemma LessSixtyFour(q: nat)
    requires q >= 0x40
    ensures (q - 0x40) / 0x40 == q / 0x40 - 1 && (q - 0x40) % 0x40 == q % 0x40
  {
  }

  lemma LowSurrogate(c: Scalar)
    requires c >= 0x10000
    ensures UnitBytes(0xdc00 + (c - 0x10000) % 0x400)
            == [0xed, 0xb0 + c / 0x40 % 0x10, 0x80 + c % 0x40]
  {
    LowBits(c);
    LowBytes(c % 0x400);
  }

  lemma LowBytes(l: nat)
    requires l < 0x400
    ensures UnitBytes(0xdc00 + l) == [0xed, 0xb0 + l / 0x40, 0x80 + l % 0x40]
  {
    assert (0xdc00 + l) / 0x40 == 0x370 + l / 0x40;
    assert (0xdc00 + l) % 0x40 == l % 0x40;
  }

  lemma LowBits(c: nat)
    requires c >= 0x10000
    ensures (c - 0x10000) % 0x400 == c % 0x400 && c % 0x400 / 0x40 == c / 0x40 % 0x10 && c % 0x400 % 0x40 == c % 0x40
  {
    var q, r := c / 0x400, c % 0x400;
    SplitBits(q, r);
    Remainder(q, r / 0x40);
    Lowered(q, r);
  }

  lemma Remainder(q: nat, x: nat)
    requires x < 0x10
    ensures (0x10 * q + x) % 0x10 == x
  {
  }

  lemma Lowered(q: nat, r: nat)
    requires r < 0x400
    ensures (0x400 * q + r - 0x10000) % 0x400 == r
  {
  }

  lemma SplitBits(q: nat, r: nat)
    requires r < 0x400
    ensures (0x400 * q + r) / 0x40 == 0x10 * q + r / 0x40 && (0x400 * q + r) % 0x40 == r % 0x40
  {
  }

  lemma OneByte(st: ConvState, c: Scalar)
    requires st.remaining == 0 && c < 0x80
    ensures Adds(st, ConvStep(st, c), c)
  {
    UnitsBytesOne(c);
  }

  /** A first byte, a continuation byte in the middle, and one at the end. */
  lemma LeadByte(st: ConvState, n: nat, bits: nat, b: Byte)
    requires st.remaining == 0 && n > 0 && Announced(b) == Some(n) && LeadBits(b) == bits
    ensures ConvStep(st, b) == ConvState(n, bits, st.out)
  {
  }

  lemma MiddleByte(n: nat, whole: nat, out: Bytes)
    requires n > 1
    ensures ConvStep(ConvState(n, whole / 0x40, out), 0x80 + whole % 0x40) == ConvState(n - 1, whole, out)
  {
    assert (0x80 + whole % 0x40) % 0x40 == whole % 0x40;
  }

  lemma LastByte(whole: nat, out: Bytes)
    ensures ConvStep(ConvState(1, whole / 0x40, out), 0x80 + whole % 0x40) == ConvState(0, whole, out + Emitted(whole))
  {
    LastBits(whole % 0x40);
    CompletedBy(whole / 0x40, 0x80 + whole % 0x40, whole, out);
  }

  lemma CompletedBy(u: nat, b: Byte, whole: nat, out: Bytes)
    requires IsContinuation(b) && whole == u * 64 + b % 64
    ensures ConvStep(ConvState(1, u, out), b) == ConvState(0, whole, out + Emitted(whole))
  {
  }

  lemma LastBits(b: nat)
    requires b < 0x40
    ensures (0x80 + b) % 0x40 == b
  {
  }

  lemma TwoBytes(st: ConvState, c: Scalar)
    requires st.remaining == 0 && 0x80 <= c < 0x800
    ensures Adds(st, ConvStep(ConvStep(st, 0xc0 + c / 0x40), 0x80 + c % 0x40), c)
  {
    LeadByte(st, 1, c / 0x40, 0xc0 + c / 0x40);
    LastByte(c, st.out);
    EmittedIsUnits(c);
  }

  lemma ThreeBytes(st: ConvState, c: Scalar)
    requires st.remaining == 0 && 0x800 <= c < 0x10000
    ensures Adds(st, ConvStep(ConvStep(ConvStep(st, 0xe0 + c / 0x1000), 0x80 + c / 0x40 % 0x40), 0x80 + c % 0x40), c)
  {
    assert c / 0x1000 == c / 0x40 / 0x40;
    LeadByte(st, 2, c / 0x1000, 0xe0 + c / 0x1000);
    MiddleByte(2, c / 0x40, st.out);
    LastByte(c, st.out);
    EmittedIsUnits(c);
  }

  lemma FourBytes(st: ConvState, c: Scalar)
    requires st.remaining == 0 && 0x10000 <= c
    ensures Adds(st, ConvStep(ConvStep(ConvStep(ConvStep(st, 0xf0 + c / 0x40000), 0x80 + c / 0x1000 % 0x40),
                                       0x80 + c / 0x40 % 0x40), 0x80 + c % 0x40), c)
  {
    assert c / 0x40000 == c / 0x1000 / 0x40 && c / 0x1000 == c / 0x40 / 0x40;
    LeadByte(st, 3, c / 0x40000, 0xf0 + c / 0x40000);
    MiddleByte(3, c / 0x1000, st.out);
    MiddleByte(2, c / 0x40, st.out);
    LastByte(c, st.out);
    EmittedIsUnits(c);
  }

  /** The second pass over some bytes, from a state on. */
  ghost function Feed(st: ConvState, bytes: Bytes): ConvState
    decreases |bytes|
  {
    if bytes == [] then st else Feed(ConvStep(st, bytes[0]), bytes[1..])
  }

  lemma {:induction false} FeedsRest(s: Bytes, n: nat)
    requires n <= |s|
    ensures ConvAfter(s, |s|) == Feed(ConvAfter(s, n), s[n..])
    decreases |s| - n
  {
    if n < |s| {
      FeedsRest(s, n + 1);
      assert s[n..][1..] == s[n + 1..];
    }
  }

  lemma FeedOne(st: ConvState, a: Byte)
    ensures Feed(st, [a]) == ConvStep(st, a)
  {
    assert [a][1..] == [];
  }

  lemma FeedTwo(st: ConvState, a: Byte, b: Byte)
    ensures Feed(st, [a, b]) == ConvStep(ConvStep(st, a), b)
  {
    assert [a, b][1..] == [b];
    FeedOne(ConvStep(st, a), b);
  }

  lemma FeedThree(st: ConvState, a: Byte, b: Byte, c: Byte)
    ensures Feed(st, [a, b, c]) == ConvStep(ConvStep(ConvStep(st, a), b), c)
  {
    assert [a, b, c][1..] == [b, c];
    FeedTwo(ConvStep(st, a), b, c);
  }

  lemma FeedFour(st: ConvState, a: Byte, b: Byte, c: Byte, d: Byte)
    ensures Feed(st, [a, b, c, d]) == ConvStep(ConvStep(ConvStep(ConvStep(st, a), b), c), d)
  {
    assert [a, b, c, d][1..] == [b, c, d];
    FeedThree(ConvStep(st, a), b, c, d);
  }

  lemma CharIsFed(st: ConvState, c: Scalar)
    requires st.remaining == 0
    ensures Adds(st, Feed(st, Utf8Char(c)), c)
  {
    if c < 0x80 {
      FeedOne(st, c);
      OneByte(st, c);
    } else if c < 0x800 {
      FeedTwo(st, 0xc0 + c / 0x40, 0x80 + c % 0x40);
      TwoBytes(st, c);
    } else if c < 0x10000 {
      FeedThree(st, 0xe0 + c / 0x1000, 0x80 + c / 0x40 % 0x40, 0x80 + c % 0x40);
      ThreeBytes(st, c);
    } else {
      FeedFour(st, 0xf0 + c / 0x40000, 0x80 + c / 0x1000 % 0x40, 0x80 + c / 0x40 % 0x40, 0x80 + c % 0x40);
      FourBytes(st, c);
    }
  }

  lemma CharIsTranscoded(s: Bytes, n: nat, c: Scalar)
    requires n + |Utf8Char(c)| == |s| && s[n..] == Utf8Char(c)
    requires ConvAfter(s, n).remaining == 0
    ensures Adds(ConvAfter(s, n), ConvAfter(s, |s|), c)
  {
    FeedsRest(s, n);
    CharIsFed(ConvAfter(s, n), c);
  }

  // ----- whole strings --------------------------------------------------------------------------------

  lemma {:induction false} UnitsBytesConcat(a: seq<Unit>, b: seq<Unit>)
    ensures UnitsBytes(a + b) == UnitsBytes(a) + UnitsBytes(b)
  {
    if b == [] {
      assert a + b == a;
    } else {
      var n := |b| - 1;
      assert (a + b)[..|a + b| - 1] == a + b[..n];
      UnitsBytesConcat(a, b[..n]);
    }
  }

  /** The output for valid UTF-8 is the byte form of the UTF-16 code units of the text. */
  lemma {:induction false} TranscodesToUnits(cs: seq<Scalar>)
    ensures ConvAfter(Utf8(cs), |Utf8(cs)|).remaining == 0
    ensures Transcode(Utf8(cs)) == UnitsBytes(Utf16(cs))
  {
    if cs != [] {
      var n := |cs| - 1;
      var before, c := Utf8(cs[..n]), cs[n];
      var s := Utf8(cs);
      assert s == before + Utf8Char(c);
      TranscodesToUnits(cs[..n]);
      assert s[..|before|] == before[..|before|];
      LenAfterPrefix(s, before, |before|);
      CharIsTranscoded(s, |before|, c);
      UnitsBytesConcat(Utf16(cs[..n]), Utf16Char(c));
    }
  }

  // ----- invalid bytes ----------------------------------------------------------------------------------

  lemma TranscodeMore(s: Bytes, b: Byte)
    ensures ConvAfter(s + [b], |s| + 1) == ConvStep(ConvAfter(s, |s|), b)
  {
    assert (s + [b])[..|s|] == s[..|s|];
    LenAfterPrefix(s + [b], s, |s|);
  }

  /** Behind valid text, a byte that starts no sequence is written as the code unit FFFD. */
  lemma StrayByteIsReplaced(cs: seq<Scalar>, b: Byte)
    requires 0x80 <= b < 0xc0 || 0xf8 <= b
    ensures Transcode(Utf8(cs) + [b]) == UnitsBytes(Utf16(cs)) + UnitBytes(0xfffd)
  {
    TranscodesToUnits(cs);
    TranscodeMore(Utf8(cs), b);
    Fffd();
  }

  lemma Fffd()
    ensures UnitBytes(0xfffd) == REPLACEMENT
  {
  }

  /** So is a sequence that a byte below 0x80 cuts off behind its first byte; that byte itself is kept. */
  lemma CutSequenceIsReplaced(cs: seq<Scalar>, lead: Byte, b: Byte)
    requires 0xc0 <= lead < 0xf8 && b < 0x80
    ensures Transcode(Utf8(cs) + [lead] + [b]) == UnitsBytes(Utf16(cs)) + UnitBytes(0xfffd) + [b]
  {
    TranscodesToUnits(cs);
    TranscodeMore(Utf8(cs), lead);
    TranscodeMore(Utf8(cs) + [lead], b);
    Fffd();
  }

  lemma TwoRead(u: Unit)
    requires u < 0x800
    ensures Group2(0xc0 + u / 0x40, 0x80 + u % 0x40) == u
  {
  }

  lemma ThreeRead(u: Unit)
    ensures Group3(0xe0 + u / 0x1000, 0x80 + u / 0x40 % 0x40, 0x80 + u % 0x40) == u
  {
    LastBits(u / 0x40 % 0x40);
    LastBits(u % 0x40);
    assert (0xe0 + u / 0x1000) % 0x10 == u / 0x1000;
    assert u / 0x1000 == u / 0x40 / 0x40;
  }

  lemma DecodesUnit(u: Unit, rest: Bytes)
    ensures DecodeUnits(UnitBytes(u) + rest) == Prepend(u, DecodeUnits(rest))
  {
    var bytes := UnitBytes(u) + rest;
    if u < 0x80 {
      assert bytes[1..] == rest;
    } else if u < 0x800 {
      TwoRead(u);
      assert bytes[2..] == rest;
    } else {
      ThreeRead(u);
      assert bytes[3..] == rest;
    }
  }

  lemma DecodesFirst(u: Unit, rest: Bytes, tail: seq<Unit>)
    requires DecodeUnits(rest) == Some(tail)
    ensures DecodeUnits(UnitBytes(u) + rest) == Some([u] + tail)
  {
    DecodesUnit(u, rest);
  }

  lemma SplitLast(us: seq<Unit>, tail: seq<Unit>)
    requires us != []
    ensures us[..|us| - 1] + ([us[|us| - 1]] + tail) == us + tail
  {
  }

  lemma UnitsBytesLast(us: seq<Unit>, rest: Bytes)
    requires us != []
    ensures UnitsBytes(us) + rest == UnitsBytes(us[..|us| - 1]) + (UnitBytes(us[|us| - 1]) + rest)
  {
    Regroup(UnitsBytes(us[..|us| - 1]), UnitBytes(us[|us| - 1]), rest);
  }

  lemma {:induction false} DecodesUnits(us: seq<Unit>, rest: Bytes, tail: seq<Unit>)
    requires DecodeUnits(rest) == Some(tail)
    ensures DecodeUnits(UnitsBytes(us) + rest) == Some(us + tail)
  {
    if us == [] {
      assert UnitsBytes(us) + rest == rest && us + tail == tail;
    } else {
      var n := |us| - 1;
      DecodesFirst(us[n], rest, tail);
      DecodesUnits(us[..n], UnitBytes(us[n]) + rest, [us[n]] + tail);
      UnitsBytesLast(us, rest);
      SplitLast(us, tail);
    }
  }

  /** For every valid UTF-8 string, the output decodes to exactly the UTF-16 code units of the text. */
  lemma OutputDecodesToUtf16(cs: seq<Scalar>)
    ensures DecodeUnits(Transcode(Utf8(cs))) == Some(Utf16(cs))
  {
    TranscodesToUnits(cs);
    DecodesUnits(Utf16(cs), [], []);
    assert UnitsBytes(Utf16(cs)) + [] == UnitsBytes(Utf16(cs));
    assert Utf16(cs) + [] == Utf16(cs);
  }
}

/** UTF-8 to CESU-8: common/src/cesu8.cpp. One pass computes the length of the output, another one
    writes it into a buffer of that length. Bits are taken with division and remainder. */
module Cesu8 {
  import opened Text

  const REPLACEMENT: Bytes := [0xef, 0xbf, 0xbd]

  // ----- what a byte is ---------------------------------------------------------------------------

  predicate IsContinuation(b: Byte) { 0x80 <= b < 0xc0 }

  /** How many continuation bytes a first byte announces; `None` for a byte that starts nothing. */
  function Announced(b: Byte): Option<nat> {
    if b < 0x80 then Some(0)
    else if 0xc0 <= b < 0xe0 then Some(1)
    else if 0xe0 <= b < 0xf0 then Some(2)
    else if 0xf0 <= b < 0xf8 then Some(3)
    else None
  }

  /** The bits of the code point that a first byte carries. */
  function LeadBits(b: Byte): nat {
    if b < 0x80 then b
    else if b < 0xe0 then b % 0x20
    else if b < 0xf0 then b % 0x10
    else b % 0x08
  }

  // ----- the two passes, one byte at a time ---------------------------------------------------------

  datatype LenState = LenState(remaining: nat, current: nat, total: nat)

  /** A byte that does not continue a sequence. */
  function LenStart(st: LenState, b: Byte): LenState {
    match Announced(b)
    case None => LenState(0, st.current, st.total + 3)
    case Some(n) => if n == 0 then LenState(0, st.current, st.total + 1) else LenState(n, 1, st.total)
  }

  function LenStep(st: LenState, b: Byte): LenState {
    if st.remaining > 0 && IsContinuation(b) then
      if st.remaining > 1 then LenState(st.remaining - 1, st.current + 1, st.total)
      else LenState(0, st.current + 1, st.total + (if st.current + 1 == 4 then 6 else st.current + 1))
    else LenStart(if st.remaining > 0 then st.(total := st.total + 3) else st, b)
  }

  datatype ConvState = ConvState(remaining: nat, uchar: nat, out: Bytes)

  function ConvStart(st: ConvState, b: Byte): ConvState {
    match Announced(b)
    case None => ConvState(0, st.uchar, st.out + REPLACEMENT)
    case Some(n) => if n == 0 then ConvState(0, st.uchar, st.out + [b]) else ConvState(n, LeadBits(b), st.out)
  }

  function ConvStep(st: ConvState, b: Byte): ConvState {
    if st.remaining > 0 && IsContinuation(b) then
      var uchar := st.uchar * 64 + b % 64;
      if st.remaining > 1 then ConvState(st.remaining - 1, uchar, st.out)
      else ConvState(0, uchar, st.out + Emitted(uchar))
    else ConvStart(if st.remaining > 0 then st.(out := st.out + REPLACEMENT) else st, b)
  }

  /** What is written for a completed sequence. */
  function Emitted(u: nat): Bytes {
    if u <= 0x7ff then [0xc0 + u / 0x40 % 0x20, 0x80 + u % 0x40]
    else if u <= 0xffff then [0xe0 + u / 0x1000 % 0x10, 0x80 + u / 0x40 % 0x40, 0x80 + u % 0x40]
    else [0xed, 0xa0 + (u / 0x10000 - 1) % 0x10, 0x80 + u / 0x400 % 0x40,
          0xed, 0xb0 + u / 0x40 % 0x10, 0x80 + u % 0x40]
  }

  /** The first pass after the first `n` bytes, and the second one. */
  function LenAfter(s: Bytes, n: nat): LenState
    requires n <= |s|
  {
    if n == 0 then LenState(0, 0, 0) else LenStep(LenAfter(s, n - 1), s[n - 1])
  }

  function ConvAfter(s: Bytes, n: nat): ConvState
    requires n <= |s|
  {
    if n == 0 then ConvState(0, 0, []) else ConvStep(ConvAfter(s, n - 1), s[n - 1])
  }

  function Cesu8Len(s: Bytes): nat { LenAfter(s, |s|).total }

  function Transcode(s: Bytes): Bytes { ConvAfter(s, |s|).out }

  // ----- C strings ------------------------------------------------------------------------------------

  /** Where a NUL-terminated string ends. */
  function Strlen(utf8: Bytes, i: nat): (r: nat)
    requires i <= |utf8| && 0 in utf8[i..]
    ensures i <= r < |utf8| && utf8[r] == 0
    ensures forall j :: i <= j < r ==> utf8[j] != 0
    decreases |utf8| - i
  {
    if utf8[i] == 0 then i
    else
      assert utf8[i..][1..] == utf8[i + 1..];
      Strlen(utf8, i + 1)
  }

  function Content(utf8: Bytes): (r: Bytes)
    requires 0 in utf8
  {
    assert utf8[0..] == utf8;
    utf8[..Strlen(utf8, 0)]
  }

  lemma LenAfterPrefix(s: Bytes, t: Bytes, n: nat)
    requires n <= |s| && n <= |t| && s[..n] == t[..n]
    ensures LenAfter(s, n) == LenAfter(t, n) && ConvAfter(s, n) == ConvAfter(t, n)
  {
    if n > 0 {
      assert s[n - 1] == s[..n][n - 1] && t[n - 1] == t[..n][n - 1];
      assert s[..n - 1] == s[..n][..n - 1] && t[..n - 1] == t[..n][..n - 1];
      LenAfterPrefix(s, t, n - 1);
    }
  }

  // ----- how the passes agree -------------------------------------------------------------------------

  /** A sequence that the second pass writes in fewer bytes than the first one counted. */
  predicate Shrinks(len: LenState, conv: ConvState, b: Byte) {
    && conv.remaining == 1 && IsContinuation(b)
    && var u := conv.uchar * 64 + b % 64;
       (len.current == 2 && u <= 0x7ff) || (len.current == 3 && u <= 0xffff)
  }

  predicate NothingShrinks(s: Bytes, n: nat)
    requires n <= |s|
  {
    n == 0 || (NothingShrinks(s, n - 1) && !Shrinks(LenAfter(s, n - 1), ConvAfter(s, n - 1), s[n - 1]))
  }

  /** The code point collected so far fits the bits that were announced. */
  ghost predicate InStep(len: LenState, conv: ConvState) {
    && len.remaining == conv.remaining <= 3
    && |conv.out| <= len.total
    && (len.remaining > 0 ==>
          || (len.remaining == 1 && len.current == 1 && conv.uchar < 0x20)
          || (len.remaining == 1 && len.current == 2 && conv.uchar < 0x400)
          || (len.remaining == 1 && len.current == 3 && conv.uchar < 0x8000)
          || (len.remaining == 2 && len.current == 1 && conv.uchar < 0x10)
          || (len.remaining == 2 && len.current == 2 && conv.uchar < 0x200)
          || (len.remaining == 3 && len.current == 1 && conv.uchar < 0x08))
  }

  lemma StepsAgree(len: LenState, conv: ConvState, b: Byte)
    requires InStep(len, conv)
    ensures InStep(LenStep(len, b), ConvStep(conv, b))
    ensures var grown := |ConvStep(conv, b).out| - |conv.out|;
            var counted := LenStep(len, b).total - len.total;
            0 <= grown <= counted && (grown == counted <==> !Shrinks(len, conv, b))
  {
  }

  /** The second pass is never ahead of the first, and level with it exactly while nothing is overlong. */
  lemma {:induction false} PassesAgree(s: Bytes, n: nat)
    requires n <= |s|
    ensures InStep(LenAfter(s, n), ConvAfter(s, n))
    ensures |ConvAfter(s, n).out| == LenAfter(s, n).total <==> NothingShrinks(s, n)
  {
    if n > 0 {
      PassesAgree(s, n - 1);
      StepsAgree(LenAfter(s, n - 1), ConvAfter(s, n - 1), s[n - 1]);
    }
  }

  /** Both passes have added, the second not more than the first. */
  ghost predicate Grew(len: LenState, conv: ConvState, len': LenState, conv': ConvState) {
    len.total <= len'.total && conv.out <= conv'.out && |conv'.out| - |conv.out| <= len'.total - len.total
  }

  lemma GrewFurther(len: LenState, conv: ConvState, len': LenState, conv': ConvState, len'': LenState, conv'': ConvState)
    requires Grew(len, conv, len', conv') && Grew(len', conv', len'', conv'')
    ensures Grew(len, conv, len'', conv'')
  {
  }

  lemma StepsGrow(len: LenState, conv: ConvState, b: Byte)
    requires InStep(len, conv)
    ensures Grew(len, conv, LenStep(len, b), ConvStep(conv, b))
  {
    StepsAgree(len, conv, b);
    ConvStepAppends(conv, b);
  }

  lemma PassGrows(s: Bytes, n: nat)
    requires n < |s|
    ensures Grew(LenAfter(s, n), ConvAfter(s, n), LenAfter(s, n + 1), ConvAfter(s, n + 1))
  {
    PassesAgree(s, n);
    StepsGrow(LenAfter(s, n), ConvAfter(s, n), s[n]);
  }

  /** Both passes only ever add. */
  lemma {:induction false} PassesGrow(s: Bytes, n: nat, m: nat)
    requires n <= m <= |s|
    ensures Grew(LenAfter(s, n), ConvAfter(s, n), LenAfter(s, m), ConvAfter(s, m))
    decreases m - n
  {
    if n < m {
      PassesGrow(s, n, m - 1);
      PassGrows(s, m - 1);
      GrewFurther(LenAfter(s, n), ConvAfter(s, n), LenAfter(s, m - 1), ConvAfter(s, m - 1), LenAfter(s, m), ConvAfter(s, m));
    }
  }

  lemma ConvStepAppends(st: ConvState, b: Byte)
    ensures st.out <= ConvStep(st, b).out
  {
  }

  // ----- when the computed length is exact ----------------------------------------------------------------

  /** Three bytes for a code point that needs two, or four for one that needs three. */
  predicate OverlongThree(a: Byte, b: Byte, c: Byte) {
    a == 0xe0 && 0x80 <= b < 0xa0 && IsContinuation(c)
  }

  predicate OverlongFour(a: Byte, b: Byte, c: Byte, d: Byte) {
    a == 0xf0 && 0x80 <= b < 0x90 && IsContinuation(c) && IsContinuation(d)
  }

  /** Such a sequence ends with byte `i`. */
  predicate OverlongTo(s: Bytes, i: nat)
    requires i < |s|
  {
    || (i >= 2 && OverlongThree(s[i - 2], s[i - 1], s[i]))
    || (i >= 3 && OverlongFour(s[i - 3], s[i - 2], s[i - 1], s[i]))
  }

  /** No sequence of three or four bytes is longer than its code point needs. */
  predicate NoOverlong(s: Bytes) {
    forall i :: 0 <= i < |s| ==> !OverlongTo(s, i)
  }

  /** The bytes of a sequence that is not complete, and the bits they carry. */
  predicate Open1(s: Bytes, n: nat, lead: int, width: int, u: nat) {
    0 < n <= |s| && lead <= s[n - 1] < lead + width && u == s[n - 1] - lead
  }

  predicate Open2(s: Bytes, n: nat, lead: int, width: int, u: nat) {
    1 < n <= |s| && Open1(s, n - 1, lead, width, u / 0x40) && IsContinuation(s[n - 1]) && u % 0x40 == s[n - 1] - 0x80
  }

  predicate Open3(s: Bytes, n: nat, lead: int, width: int, u: nat) {
    2 < n <= |s| && Open2(s, n - 1, lead, width, u / 0x40) && IsContinuation(s[n - 1]) && u % 0x40 == s[n - 1] - 0x80
  }

  /** The state of the passes after `n` bytes, by the last of these. */
  predicate Traces(s: Bytes, n: nat, remaining: nat, current: nat, u: nat) {
    || remaining == 0
    || (remaining == 1 && current == 1)
    || (remaining == 2 && current == 1 && Open1(s, n, 0xe0, 0x10, u))
    || (remaining == 1 && current == 2 && Open2(s, n, 0xe0, 0x10, u))
    || (remaining == 3 && current == 1 && Open1(s, n, 0xf0, 0x08, u))
    || (remaining == 2 && current == 2 && Open2(s, n, 0xf0, 0x08, u))
    || (remaining == 1 && current == 3 && Open3(s, n, 0xf0, 0x08, u))
  }

  lemma ContinuationBits(u: nat, b: Byte)
    requires IsContinuation(b)
    ensures (u * 64 + b % 64) / 0x40 == u && (u * 64 + b % 64) % 0x40 == b - 0x80
  {
  }

  lemma LeadTraces(s: Bytes, n: nat, b: Byte)
    requires 0 < n <= |s| && s[n - 1] == b && Announced(b).Some?
    ensures Traces(s, n, Announced(b).value, 1, LeadBits(b))
  {
  }

  lemma ContinuationTraces(s: Bytes, n: nat, remaining: nat, current: nat, u: nat)
    requires n < |s| && remaining > 0 && IsContinuation(s[n]) && Traces(s, n, remaining, current, u)
    ensures Traces(s, n + 1, remaining - 1, current + 1, u * 64 + s[n] % 64)
  {
    ContinuationBits(u, s[n]);
  }

  lemma {:induction false} StateTraces(s: Bytes, n: nat)
    requires n <= |s|
    ensures LenAfter(s, n).remaining == ConvAfter(s, n).remaining
    ensures Traces(s, n, LenAfter(s, n).remaining, LenAfter(s, n).current, ConvAfter(s, n).uchar)
  {
    if n > 0 {
      StateTraces(s, n - 1);
      StepTraces(s, n - 1, LenAfter(s, n - 1), ConvAfter(s, n - 1));
    }
  }

  lemma StepTraces(s: Bytes, n: nat, len: LenState, conv: ConvState)
    requires n < |s| && len.remaining == conv.remaining && Traces(s, n, len.remaining, len.current, conv.uchar)
    ensures var len', conv' := LenStep(len, s[n]), ConvStep(conv, s[n]);
            len'.remaining == conv'.remaining && Traces(s, n + 1, len'.remaining, len'.current, conv'.uchar)
  {
    if len.remaining > 0 && IsContinuation(s[n]) {
      ContinuationTraces(s, n, len.remaining, len.current, conv.uchar);
    } else if Announced(s[n]).Some? {
      LeadTraces(s, n + 1, s[n]);
    }
  }

  /** A step of the second pass shrinks what the first one counted exactly at the end of an overlong sequence. */
  lemma ShrinksAtOverlong(s: Bytes, i: nat)
    requires i < |s|
    ensures Shrinks(LenAfter(s, i), ConvAfter(s, i), s[i]) <==> OverlongTo(s, i)
  {
    StateTraces(s, i);
    if i >= 2 && OverlongThree(s[i - 2], s[i - 1], s[i]) {
      OpenAfterTwo(s, i);
    }
    if i >= 3 && OverlongFour(s[i - 3], s[i - 2], s[i - 1], s[i]) {
      OpenAfterThree(s, i);
    }
    ShrinkingBytes(s, i, LenAfter(s, i), ConvAfter(s, i));
  }

  lemma OpenAfterTwo(s: Bytes, i: nat)
    requires 2 <= i <= |s| && 0xe0 <= s[i - 2] < 0xf0 && IsContinuation(s[i - 1])
    ensures LenAfter(s, i).remaining == ConvAfter(s, i).remaining == 1 && LenAfter(s, i).current == 2
  {
    assert LenAfter(s, i - 1).remaining == ConvAfter(s, i - 1).remaining == 2 && LenAfter(s, i - 1).current == 1;
  }

  lemma OpenAfterThree(s: Bytes, i: nat)
    requires 3 <= i <= |s| && 0xf0 <= s[i - 3] < 0xf8 && IsContinuation(s[i - 2]) && IsContinuation(s[i - 1])
    ensures LenAfter(s, i).remaining == ConvAfter(s, i).remaining == 1 && LenAfter(s, i).current == 3
  {
    assert LenAfter(s, i - 2).remaining == ConvAfter(s, i - 2).remaining == 3 && LenAfter(s, i - 2).current == 1;
    assert LenAfter(s, i - 1).remaining == ConvAfter(s, i - 1).remaining == 2 && LenAfter(s, i - 1).current == 2;
  }

  lemma ShrinkingBytes(s: Bytes, i: nat, len: LenState, conv: ConvState)
    requires i < |s| && len.remaining == conv.remaining
    requires Traces(s, i, len.remaining, len.current, conv.uchar)
    requires i >= 2 && OverlongThree(s[i - 2], s[i - 1], s[i]) ==> len.remaining == 1 && len.current == 2
    requires i >= 3 && OverlongFour(s[i - 3], s[i - 2], s[i - 1], s[i]) ==> len.remaining == 1 && len.current == 3
    ensures Shrinks(len, conv, s[i]) <==> OverlongTo(s, i)
  {
  }

  lemma {:induction false} NothingShrinksMeaning(s: Bytes, n: nat)
    requires n <= |s|
    ensures NothingShrinks(s, n) <==> forall i :: 0 <= i < n ==> !OverlongTo(s, i)
  {
    if n > 0 {
      NothingShrinksMeaning(s, n - 1);
      ShrinksAtOverlong(s, n - 1);
    }
  }

  /** As many bytes are written as were counted, exactly when no sequence of three or four bytes is overlong. */
  lemma LengthIsExact(s: Bytes)
    ensures |Transcode(s)| <= Cesu8Len(s)
    ensures |Transcode(s)| == Cesu8Len(s) <==> NoOverlong(s)
  {
    PassesAgree(s, |s|);
    NothingShrinksMeaning(s, |s|);
  }

  /** Wherever such a sequence stands, less is written than was counted. */
  lemma OverlongIsShorter(x: Bytes, a: Byte, b: Byte, c: Byte, y: Bytes)
    requires OverlongThree(a, b, c)
    ensures |Transcode(x + [a, b, c] + y)| < Cesu8Len(x + [a, b, c] + y)
  {
    var s := x + [a, b, c] + y;
    assert OverlongTo(s, |x| + 2);
    LengthIsExact(s);
  }

  lemma OverlongFourIsShorter(x: Bytes, a: Byte, b: Byte, c: Byte, d: Byte, y: Bytes)
    requires OverlongFour(a, b, c, d)
    ensures |Transcode(x + [a, b, c, d] + y)| < Cesu8Len(x + [a, b, c, d] + y)
  {
    var s := x + [a, b, c, d] + y;
    assert OverlongTo(s, |x| + 3);
    LengthIsExact(s);
  }

  // ----- the passes as loops ----------------------------------------------------------------------------

  method ComputeLen(utf8: Option<Bytes>) returns (r: int)
    requires utf8.Some? ==> 0 in utf8.value
    ensures r == if utf8.None? then -1 else Cesu8Len(Content(utf8.value))
  {
    if utf8.None? {
      return -1;
    }
    ghost var s := Content(utf8.value);
    var currentLen, remaining, i := 0, 0, 0;
    var p := 0;
    assert utf8.value[0..] == utf8.value;
    while utf8.value[p] != 0
      invariant 0 <= p <= |s|
      invariant LenState(remaining, currentLen, i) == LenAfter(s, p)
      decreases |s| - p
    {
      var b := utf8.value[p];
      assert b == s[p];
      p := p + 1;
      if remaining > 0 {
        if IsContinuation(b) {
          currentLen := currentLen + 1;
          remaining := remaining - 1;
          if remaining == 0 {
            i := i + (if currentLen == 4 then 6 else currentLen);
          }
          continue;
        } else {
          i := i + 3;
          remaining := 0;
        }
      }
      if b < 0x80 {
        i := i + 1;
      } else if 0xc0 <= b < 0xe0 {
        currentLen, remaining := 1, 1;
      } else if 0xe0 <= b < 0xf0 {
        currentLen, remaining := 1, 2;
      } else if 0xf0 <= b < 0xf8 {
        currentLen, remaining := 1, 3;
      } else {
        i := i + 3;
        remaining := 0;
      }
    }
    r := i;
  }

  /** `modified_utf[i++] = ...`, once for each byte. */
  method Append(output: array<Byte>, i: nat, bytes: Bytes) returns (j: nat)
    requires i + |bytes| <= output.Length
    modifies output
    ensures j == i + |bytes| && output[..j] == old(output[..i]) + bytes
  {
    j := i;
    while j < i + |bytes|
      invariant i <= j <= i + |bytes|
      invariant output[..j] == old(output[..i]) + bytes[..j - i]
    {
      output[j] := bytes[j - i];
      j := j + 1;
    }
  }

  /** The guarded writes of a completed sequence: dropped when there is no room for them. */
  method Emit(output: array<Byte>, i: nat, u: nat) returns (j: nat)
    requires i <= output.Length
    modifies output
    ensures i + |Emitted(u)| < output.Length ==> j == i + |Emitted(u)| && output[..j] == old(output[..i]) + Emitted(u)
    ensures i + |Emitted(u)| >= output.Length ==> j == i && output[..j] == old(output[..i])
  {
    j := i;
    if u <= 0x7ff {
      if i + 2 < output.Length {
        j := Append(output, i, [0xc0 + u / 0x40 % 0x20, 0x80 + u % 0x40]);
      }
    } else if u <= 0xffff {
      if i + 3 < output.Length {
        j := Append(output, i, [0xe0 + u / 0x1000 % 0x10, 0x80 + u / 0x40 % 0x40, 0x80 + u % 0x40]);
      }
    } else {
      if i + 6 < output.Length {
        j := Append(output, i, [0xed, 0xa0 + (u / 0x10000 - 1) % 0x10, 0x80 + u / 0x400 % 0x40,
                                0xed, 0xb0 + u / 0x40 % 0x10, 0x80 + u % 0x40]);
      }
    }
  }

  method EmitReplacement(output: array<Byte>, i: nat) returns (j: nat)
    requires i <= output.Length
    modifies output
    ensures i + 3 < output.Length ==> j == i + 3 && output[..j] == old(output[..i]) + REPLACEMENT
    ensures i + 3 >= output.Length ==> j == i && output[..j] == old(output[..i])
  {
    j := i;
    if i + 3 < output.Length {
      j := Append(output, i, REPLACEMENT);
    }
  }

  /** There is room for what the next byte makes the second pass write, and for the terminator. */
  lemma Room(s: Bytes, p: nat, size: nat)
    requires p <= |s| && Cesu8Len(s) < size
    ensures |ConvAfter(s, p).out| < size
    ensures |ConvAfter(s, p).out| + 1 >= size ==> ConvAfter(s, p).out == Transcode(s)
  {
    PassesGrow(s, p, |s|);
    PassesAgree(s, p);
    PassesAgree(s, |s|);
  }

  /** One byte of the second pass. Nothing is dropped as long as the result leaves room for the
      terminator. */
  method ConvertByte(output: array<Byte>, i: nat, remaining: nat, uchar: nat, b: Byte)
    returns (i': nat, remaining': nat, uchar': nat)
    requires i < output.Length
    requires |ConvStep(ConvState(remaining, uchar, output[..i]), b).out| < output.Length
    modifies output
    ensures i' < output.Length
    ensures ConvState(remaining', uchar', output[..i']) == ConvStep(old(ConvState(remaining, uchar, output[..i])), b)
  {
    i', remaining', uchar' := i, remaining, uchar;
    if remaining > 0 {
      if IsContinuation(b) {
        uchar' := uchar * 64 + b % 64;
        remaining' := remaining - 1;
        if remaining' == 0 {
          i' := Emit(output, i, uchar');
        }
        return;
      }
      i' := EmitReplacement(output, i);
      remaining' := 0;
    }
    i', remaining', uchar' := StartSequence(output, i', remaining', uchar', b);
  }

  method StartSequence(output: array<Byte>, i: nat, remaining: nat, uchar: nat, b: Byte)
    returns (i': nat, remaining': nat, uchar': nat)
    requires i < output.Length && remaining == 0
    requires |ConvStart(ConvState(remaining, uchar, output[..i]), b).out| < output.Length
    modifies output
    ensures i' < output.Length
    ensures ConvState(remaining', uchar', output[..i']) == ConvStart(old(ConvState(remaining, uchar, output[..i])), b)
  {
    i', remaining', uchar' := i, remaining, uchar;
    if b < 0x80 {
      i' := Append(output, i, [b]);
    } else if 0xc0 <= b < 0xe0 {
      uchar', remaining' := b % 0x20, 1;
    } else if 0xe0 <= b < 0xf0 {
      uchar', remaining' := b % 0x10, 2;
    } else if 0xf0 <= b < 0xf8 {
      uchar', remaining' := b % 0x08, 3;
    } else {
      i' := EmitReplacement(output, i);
      remaining' := 0;
    }
  }

  /** Into a buffer of at least one byte more than the computed length, any NUL-terminated string is
      written completely: every write is inside the buffer and no guard drops a sequence. */
  method Utf8ToCesu8NoAlloc(utf8: Option<Bytes>, output: array<Byte>) returns (r: int)
    requires utf8.Some? ==> 0 in utf8.value && Cesu8Len(Content(utf8.value)) < output.Length
    modifies output
    ensures utf8.None? ==> r == -1 && output[..] == old(output[..])
    ensures utf8.Some? ==> r == |Transcode(Content(utf8.value))| + 1 <= output.Length
    ensures utf8.Some? ==> output[..r] == Transcode(Content(utf8.value)) + [0]
  {
    if utf8.None? {
      return -1;
    }
    ghost var s := Content(utf8.value);
    var remaining: nat, uchar: nat, i: nat := 0, 0, 0;
    var p := 0;
    assert utf8.value[0..] == utf8.value;
    while utf8.value[p] != 0 && i + 1 < output.Length
      invariant 0 <= p <= |s| && i < output.Length
      invariant ConvState(remaining, uchar, output[..i]) == ConvAfter(s, p)
      decreases |s| - p
    {
      assert utf8.value[p] == s[p];
      Room(s, p + 1, output.Length);
      i, remaining, uchar := ConvertByte(output, i, remaining, uchar, utf8.value[p]);
      p := p + 1;
    }
    Room(s, p, output.Length);
    ghost var written := output[..i];
    output[i] := 0;
    i := i + 1;
    assert output[..i] == written + [0];
    r := i;
  }

  method Utf8ToCesu8(utf8: Option<Bytes>) returns (r: Option<Bytes>)
    requires utf8.Some? ==> 0 in utf8.value
    ensures r == if utf8.None? then None else Some(Transcode(Content(utf8.value)) + [0])
  {
    if utf8.None? {
      return None;
    }
    var n := ComputeLen(utf8);
    var output := new Byte[n + 1];
    var written := Utf8ToCesu8NoAlloc(utf8, output);
    r := Some(output[..written]);
  }
}

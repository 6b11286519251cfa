/** The cache key of a request: `get_cache_key` in proxy/src/dns_forwarder.cpp. Names are in wire form, labels behind
    their lengths and a zero at the end (section 3.1 of RFC 1035). */
module CacheKey {
  import opened Text

  type Labels = seq<Bytes>

  const DOT: Byte := 46
  const BAR: Byte := 124

  datatype Request = Request(rtype: nat, rclass: nat, dnssecOk: bool, checkingDisabled: bool, name: Labels)

  // ----- names ----------------------------------------------------------------------------------------

  /** Labels from index `n` on, in wire form. */
  function Wire(labels: Labels, n: nat): seq<int>
    requires n <= |labels|
    decreases |labels| - n
  {
    if n == |labels| then [0] else [|labels[n]|] + labels[n] + Wire(labels, n + 1)
  }

  ghost predicate WellFormed(labels: Labels) {
    |Wire(labels, 0)| <= 255 && forall i :: 0 <= i < |labels| ==> 1 <= |labels[i]| <= 63
  }

  function LowerByte(b: int): int {
    if 65 <= b <= 90 then b + 32 else b
  }

  function Lower(s: seq<int>): (r: seq<int>)
    ensures |r| == |s| && forall i :: 0 <= i < |s| ==> r[i] == LowerByte(s[i])
  {
    seq(|s|, i requires 0 <= i < |s| => LowerByte(s[i]))
  }

  /** Labels from index `n` on, in lower case, a dot behind each. */
  function Dotted(labels: Labels, n: nat): seq<int>
    requires n <= |labels|
    decreases |labels| - n
  {
    if n == |labels| then [] else Lower(labels[n]) + [DOT] + Dotted(labels, n + 1)
  }

  function NameText(labels: Labels): seq<int> {
    if |labels| == 0 then [DOT] else Dotted(labels, 0)
  }

  // ----- the key ----------------------------------------------------------------------------------------

  function Decimal(n: nat): (r: seq<int>)
    ensures |r| > 0 && forall i :: 0 <= i < |r| ==> 48 <= r[i] <= 57
  {
    if n < 10 then [48 + n] else Decimal(n / 10) + [48 + n % 10]
  }

  function Flag(b: bool): int { if b then 49 else 48 }

  function Prefix(r: Request): seq<int> {
    Decimal(r.rtype) + [BAR] + (Decimal(r.rclass) + [BAR] + ([Flag(r.dnssecOk), Flag(r.checkingDisabled)] + [BAR]))
  }

  function Key(r: Request): seq<int> {
    Prefix(r) + NameText(r.name)
  }

  lemma {:induction false} WireParts(labels: Labels, n: nat)
    requires n <= |labels|
    ensures |Wire(labels, n)| > 0 && Wire(labels, n)[0] == if n == |labels| then 0 else |labels[n]|
    ensures n < |labels| ==> Wire(labels, n)[1..1 + |labels[n]|] == labels[n]
    ensures n < |labels| ==> Wire(labels, n)[1 + |labels[n]|..] == Wire(labels, n + 1)
  {
  }

  lemma RootIsShortest(labels: Labels)
    requires forall i :: 0 <= i < |labels| ==> 1 <= |labels[i]|
    ensures |Wire(labels, 0)| == 1 <==> |labels| == 0
  {
  }

  /** One round of the loop: the label behind the length byte at `at`. */
  method PushLabel(owner: seq<int>, at: nat, len: int, key: seq<int>, ghost label_: Bytes)
      returns (longer: seq<int>, srcPos: nat)
    requires len == |label_| && at + 1 + len < |owner| <= 255 && owner[at + 1..at + 1 + len] == label_
    ensures srcPos == at + 1 + len && longer == key + (Lower(label_) + [DOT])
  {
    longer, srcPos := key, (at + 1) % 256;
    for i := 0 to len
      invariant srcPos == at + 1 + i && longer == key + Lower(label_)[..i]
    {
      assert owner[srcPos] == label_[i];
      longer := longer + [LowerByte(owner[srcPos])];
      srcPos := (srcPos + 1) % 256;
    }
    if srcPos < |owner| {
      longer := longer + [DOT];
    }
  }

  lemma NotAtEnd(owner: seq<int>, at: nat, labels: Labels, n: nat)
    requires at < |owner| && n <= |labels| && owner[at..] == Wire(labels, n) && owner[at] > 0
    ensures n < |labels| && owner[at] == |labels[n]|
  {
    WireParts(labels, n);
    assert owner[at..][0] == owner[at];
  }

  lemma AtEnd(owner: seq<int>, at: nat, labels: Labels, n: nat)
    requires at < |owner| && n <= |labels| && owner[at..] == Wire(labels, n) && owner[at] <= 0
    requires forall i :: 0 <= i < |labels| ==> 1 <= |labels[i]|
    ensures n == |labels|
  {
    WireParts(labels, n);
    assert owner[at..][0] == owner[at];
  }

  lemma InOwner(owner: seq<int>, at: nat, labels: Labels, n: nat)
    requires at < |owner| && n < |labels| && owner[at..] == Wire(labels, n)
    ensures var k := |labels[n]|;
            && at + 1 + k < |owner| && owner[at + 1..at + 1 + k] == labels[n] && owner[at + 1 + k..] == Wire(labels, n + 1)
  {
    WireParts(labels, n);
    WireParts(labels, n + 1);
    var k := |labels[n]|;
    assert owner[at..][1..1 + k] == owner[at + 1..at + 1 + k];
    assert owner[at..][1 + k..] == owner[at + 1 + k..];
  }

  /** The labels behind what is done, in lower case, a dot behind each. */
  ghost function DottedFrom(labels: Labels, n: nat, done: seq<int>): seq<int>
    requires n <= |labels|
    decreases |labels| - n
  {
    if n == |labels| then done else DottedFrom(labels, n + 1, done + (Lower(labels[n]) + [DOT]))
  }

  lemma {:induction false} DottedBehind(labels: Labels, n: nat, done: seq<int>)
    requires n <= |labels|
    ensures DottedFrom(labels, n, done) == done + Dotted(labels, n)
    decreases |labels| - n
  {
    if n < |labels| {
      DottedBehind(labels, n + 1, done + (Lower(labels[n]) + [DOT]));
      Regroup(done, Lower(labels[n]) + [DOT], Dotted(labels, n + 1));
    }
  }

  /** A position of the owner name where label `n` begins. */
  ghost predicate AtLabel(owner: seq<int>, at: nat, labels: Labels, n: nat) {
    at < |owner| <= 255 && n <= |labels| && owner[at..] == Wire(labels, n)
  }

  method PushNext(owner: seq<int>, at: nat, key: seq<int>, ghost labels: Labels, ghost n: nat)
      returns (longer: seq<int>, srcPos: nat)
    requires AtLabel(owner, at, labels, n) && owner[at] > 0
    ensures n < |labels| && AtLabel(owner, srcPos, labels, n + 1) && longer == key + (Lower(labels[n]) + [DOT])
  {
    NotAtEnd(owner, at, labels, n);
    InOwner(owner, at, labels, n);
    longer, srcPos := PushLabel(owner, at, owner[at], key, labels[n]);
  }

  /** The loop of the source over the bytes of the owner name. */
  method PushLabels(owner: seq<int>, key: seq<int>, ghost labels: Labels) returns (longer: seq<int>)
    requires AtLabel(owner, 0, labels, 0) && forall i :: 0 <= i < |labels| ==> 1 <= |labels[i]|
    ensures longer == DottedFrom(labels, 0, key)
  {
    longer := key;
    var len, srcPos := owner[0], 0;
    ghost var n := 0;
    while len > 0 && srcPos < |owner|
      invariant AtLabel(owner, srcPos, labels, n) && len == owner[srcPos]
      invariant DottedFrom(labels, n, longer) == DottedFrom(labels, 0, key)
      decreases |labels| - n
    {
      longer, srcPos := PushNext(owner, srcPos, longer, labels, n);
      n := n + 1;
      len := owner[srcPos];
    }
    AtEnd(owner, srcPos, labels, n);
  }

  method PushName(owner: seq<int>, key: seq<int>, ghost labels: Labels) returns (longer: seq<int>)
    requires WellFormed(labels) && owner == Wire(labels, 0)
    ensures longer == key + NameText(labels)
  {
    RootIsShortest(labels);
    if |owner| == 1 {
      longer := key + [DOT];
    } else {
      assert owner[0..] == owner;
      longer := PushLabels(owner, key, labels);
      DottedBehind(labels, 0, key);
    }
  }

  method GetCacheKey(r: Request, owner: seq<int>) returns (key: seq<int>)
    requires WellFormed(r.name) && owner == Wire(r.name, 0)
    ensures key == Key(r)
  {
    key := Decimal(r.rtype) + [BAR] + (Decimal(r.rclass) + [BAR] + ([Flag(r.dnssecOk), Flag(r.checkingDisabled)] + [BAR]));
    key := PushName(owner, key, r.name);
  }

  // ----- equal keys ----------------------------------------------------------------------------------------

  /** A separator that occurs in neither head splits equal texts alike. */
  lemma {:induction false} SameHead(a: seq<int>, x: seq<int>, b: seq<int>, y: seq<int>, sep: int)
    requires a + [sep] + x == b + [sep] + y && sep !in a && sep !in b
    ensures a == b && x == y
  {
    var whole := a + [sep] + x;
    assert whole[|a|] == sep && whole[|b|] == sep;
    assert forall i :: 0 <= i < |a| ==> whole[i] == a[i];
    assert forall i :: 0 <= i < |b| ==> whole[i] == b[i];
    assert whole[..|a|] == a && whole[..|a|] == b;
    assert whole[|a| + 1..] == x && whole[|a| + 1..] == y;
  }

  lemma {:induction false} DecimalIsInjective(m: nat, n: nat)
    requires Decimal(m) == Decimal(n)
    ensures m == n
  {
    var a, b := Decimal(m), Decimal(n);
    assert a[|a| - 1] == 48 + m % 10 && b[|b| - 1] == 48 + n % 10;
    if m >= 10 && n >= 10 {
      assert a[..|a| - 1] == Decimal(m / 10) && b[..|b| - 1] == Decimal(n / 10);
      DecimalIsInjective(m / 10, n / 10);
    }
  }

  lemma PrefixSplits(r: Request, q: Request, x: seq<int>, y: seq<int>)
    ensures Prefix(r) + x == Prefix(q) + y <==>
            (r.rtype == q.rtype && r.rclass == q.rclass && r.dnssecOk == q.dnssecOk &&
             r.checkingDisabled == q.checkingDisabled && x == y)
  {
    if Prefix(r) + x == Prefix(q) + y {
      var fr, fq := [Flag(r.dnssecOk), Flag(r.checkingDisabled)], [Flag(q.dnssecOk), Flag(q.checkingDisabled)];
      var cr, cq := Decimal(r.rclass) + [BAR] + (fr + [BAR] + x), Decimal(q.rclass) + [BAR] + (fq + [BAR] + y);
      assert Prefix(r) + x == Decimal(r.rtype) + [BAR] + cr;
      assert Prefix(q) + y == Decimal(q.rtype) + [BAR] + cq;
      SameHead(Decimal(r.rtype), cr, Decimal(q.rtype), cq, BAR);
      SameHead(Decimal(r.rclass), fr + [BAR] + x, Decimal(q.rclass), fq + [BAR] + y, BAR);
      SameHead(fr, x, fq, y, BAR);
      DecimalIsInjective(r.rtype, q.rtype);
      DecimalIsInjective(r.rclass, q.rclass);
      assert fr[0] == fq[0] && fr[1] == fq[1];
    }
  }

  // ----- names with equal texts --------------------------------------------------------------------------

  type Pieces = seq<seq<int>>

  ghost predicate DotFree(pieces: Pieces) {
    forall i :: 0 <= i < |pieces| ==> DOT !in pieces[i]
  }

  /** The pieces from index `n` on, a dot behind each. */
  function Joined(pieces: Pieces, n: nat): seq<int>
    requires n <= |pieces|
    decreases |pieces| - n
  {
    if n == |pieces| then [] else pieces[n] + [DOT] + Joined(pieces, n + 1)
  }

  lemma {:induction false} JoinedIsInjective(a: Pieces, b: Pieces, n: nat)
    requires n <= |a| && n <= |b| && DotFree(a) && DotFree(b) && Joined(a, n) == Joined(b, n)
    ensures a[n..] == b[n..]
    decreases |a| - n
  {
    if n < |a| && n < |b| {
      SameHead(a[n], Joined(a, n + 1), b[n], Joined(b, n + 1), DOT);
      JoinedIsInjective(a, b, n + 1);
      assert a[n..] == [a[n]] + a[n + 1..];
      assert b[n..] == [b[n]] + b[n + 1..];
    }
  }

  /** The pieces of a text between its dots, from position `i` on. */
  function SplitAtDots(s: seq<int>, i: nat): (r: Pieces)
    requires i <= |s|
    ensures |r| > 0
    decreases |s| - i
  {
    if i == |s| then [[]]
    else
      var r := SplitAtDots(s, i + 1);
      if s[i] == DOT then [[]] + r else [[s[i]] + r[0]] + r[1..]
  }

  /** The labels of a name in lower case, split further at the dots they contain. */
  function LowerPieces(labels: Labels, n: nat): Pieces
    requires n <= |labels|
    decreases |labels| - n
  {
    if n == |labels| then [] else SplitAtDots(Lower(labels[n]), 0) + LowerPieces(labels, n + 1)
  }

  lemma {:induction false} JoinedAppend(a: Pieces, b: Pieces, n: nat)
    requires n <= |a|
    ensures Joined(a + b, n) == Joined(a, n) + Joined(b, 0)
    decreases |a| - n
  {
    if n == |a| {
      JoinedBehind(a, b, 0);
    } else {
      JoinedAppend(a, b, n + 1);
      Regroup(a[n] + [DOT], Joined(a, n + 1), Joined(b, 0));
    }
  }

  lemma {:induction false} JoinedBehind(a: Pieces, b: Pieces, n: nat)
    requires n <= |b|
    ensures Joined(a + b, |a| + n) == Joined(b, n)
    decreases |b| - n
  {
    if n < |b| {
      JoinedBehind(a, b, n + 1);
    }
  }

  lemma JoinedCons(p: seq<int>, tail: Pieces)
    ensures Joined([p] + tail, 0) == p + [DOT] + Joined(tail, 0)
  {
    JoinedBehind([p], tail, 0);
  }

  lemma LongerHead(c: int, r: Pieces)
    requires |r| > 0
    ensures Joined([[c] + r[0]] + r[1..], 0) == [c] + Joined(r, 0)
  {
    JoinedCons([c] + r[0], r[1..]);
    JoinedCons(r[0], r[1..]);
    assert [r[0]] + r[1..] == r;
    LongerText(c, r[0], Joined(r[1..], 0));
  }

  lemma LongerText(c: int, p: seq<int>, rest: seq<int>)
    ensures ([c] + p) + [DOT] + rest == [c] + (p + [DOT] + rest)
  {
  }

  lemma {:induction false} SplitRejoins(s: seq<int>, i: nat)
    requires i <= |s|
    ensures Joined(SplitAtDots(s, i), 0) == s[i..] + [DOT] && DotFree(SplitAtDots(s, i))
    decreases |s| - i
  {
    if i < |s| {
      var r := SplitAtDots(s, i + 1);
      SplitRejoins(s, i + 1);
      assert s[i..] == [s[i]] + s[i + 1..];
      if s[i] == DOT {
        JoinedBehind([[]], r, 0);
      } else {
        LongerHead(s[i], r);
      }
    }
  }

  lemma {:induction false} DottedIsJoined(labels: Labels, n: nat)
    requires n <= |labels|
    ensures Dotted(labels, n) == Joined(LowerPieces(labels, n), 0)
    decreases |labels| - n
  {
    if n < |labels| {
      var own := Lower(labels[n]);
      DottedIsJoined(labels, n + 1);
      SplitRejoins(own, 0);
      JoinedAppend(SplitAtDots(own, 0), LowerPieces(labels, n + 1), 0);
      assert own[0..] == own;
    }
  }

  lemma {:induction false} PiecesAreDotFree(labels: Labels, n: nat)
    requires n <= |labels|
    ensures DotFree(LowerPieces(labels, n)) && (n < |labels| ==> |LowerPieces(labels, n)| > 0)
    decreases |labels| - n
  {
    if n < |labels| {
      PiecesAreDotFree(labels, n + 1);
      SplitRejoins(Lower(labels[n]), 0);
    }
  }

  /** Two requests have the same key exactly when their types, classes and flags agree and their names read the same
      without regard to case and to which dots separate labels. */
  lemma EqualKeys(r: Request, q: Request)
    requires WellFormed(r.name) && WellFormed(q.name)
    ensures Key(r) == Key(q) <==>
            (r.rtype == q.rtype && r.rclass == q.rclass && r.dnssecOk == q.dnssecOk &&
             r.checkingDisabled == q.checkingDisabled && LowerPieces(r.name, 0) == LowerPieces(q.name, 0))
  {
    PrefixSplits(r, q, NameText(r.name), NameText(q.name));
    EqualNames(r.name, q.name);
  }

  lemma EqualNames(a: Labels, b: Labels)
    requires WellFormed(a) && WellFormed(b)
    ensures NameText(a) == NameText(b) <==> LowerPieces(a, 0) == LowerPieces(b, 0)
  {
    DottedIsJoined(a, 0);
    DottedIsJoined(b, 0);
    PiecesAreDotFree(a, 0);
    PiecesAreDotFree(b, 0);
    NotRoot(a);
    NotRoot(b);
    if Dotted(a, 0) == Dotted(b, 0) {
      JoinedIsInjective(LowerPieces(a, 0), LowerPieces(b, 0), 0);
      assert LowerPieces(a, 0)[0..] == LowerPieces(a, 0) && LowerPieces(b, 0)[0..] == LowerPieces(b, 0);
    }
  }

  lemma NotRoot(a: Labels)
    requires WellFormed(a)
    ensures |Dotted(a, 0)| != 1
  {
  }

  /** The same byte, or the codes of one letter in both cases. */
  predicate SameLetter(a: Byte, b: Byte) {
    a == b || (65 <= a <= 90 && b == a + 32) || (65 <= b <= 90 && a == b + 32)
  }

  predicate SameLabel(a: Bytes, b: Bytes) {
    |a| == |b| && forall j :: 0 <= j < |a| ==> SameLetter(a[j], b[j])
  }

  /** Names whose labels agree up to case. */
  predicate SameName(a: Labels, b: Labels) {
    |a| == |b| && forall i :: 0 <= i < |a| ==> SameLabel(a[i], b[i])
  }

  lemma LowerMeaning(a: Bytes, b: Bytes)
    ensures Lower(a) == Lower(b) <==> SameLabel(a, b)
  {
    if Lower(a) == Lower(b) {
      forall j | 0 <= j < |a|
        ensures |a| == |b| && SameLetter(a[j], b[j])
      {
        assert |Lower(a)| == |Lower(b)| && Lower(a)[j] == Lower(b)[j];
      }
      assert |Lower(a)| == |Lower(b)|;
    }
  }

  lemma {:induction false} PiecesAreLabels(labels: Labels, n: nat)
    requires n <= |labels| && DotFree(labels)
    ensures LowerPieces(labels, n) == LowerLabels(labels, n)
    decreases |labels| - n
  {
    if n < |labels| {
      PiecesAreLabels(labels, n + 1);
      LowerKeepsDots(labels[n]);
      NothingToSplit(Lower(labels[n]), 0);
      assert Lower(labels[n])[0..] == Lower(labels[n]);
    }
  }

  /** The labels from index `n` on, in lower case. */
  ghost function LowerLabels(labels: Labels, n: nat): Pieces
    requires n <= |labels|
    decreases |labels| - n
  {
    if n == |labels| then [] else [Lower(labels[n])] + LowerLabels(labels, n + 1)
  }

  lemma {:induction false} LowerLabelAt(labels: Labels, n: nat, i: nat)
    requires n <= i < |labels|
    ensures |LowerLabels(labels, n)| == |labels| - n && LowerLabels(labels, n)[i - n] == Lower(labels[i])
    decreases |labels| - n
  {
    if n + 1 < |labels| {
      LowerLabelAt(labels, n + 1, if i == n then i + 1 else i);
    }
  }

  lemma LowerLabelsAre(labels: Labels)
    ensures |LowerLabels(labels, 0)| == |labels|
    ensures forall i :: 0 <= i < |labels| ==> LowerLabels(labels, 0)[i] == Lower(labels[i])
  {
    forall i | 0 <= i < |labels|
      ensures |LowerLabels(labels, 0)| == |labels| && LowerLabels(labels, 0)[i] == Lower(labels[i])
    {
      LowerLabelAt(labels, 0, i);
    }
  }

  lemma LowerKeepsDots(s: seq<int>)
    requires DOT !in s
    ensures DOT !in Lower(s)
  {
    assert forall i :: 0 <= i < |s| ==> s[i] != DOT && Lower(s)[i] == LowerByte(s[i]);
  }

  lemma {:induction false} NothingToSplit(s: seq<int>, i: nat)
    requires i <= |s| && DOT !in s
    ensures SplitAtDots(s, i) == [s[i..]]
    decreases |s| - i
  {
    if i == |s| {
      assert s[i..] == [];
    } else {
      NothingToSplit(s, i + 1);
      assert SplitAtDots(s, i + 1)[1..] == [];
      assert s[i] in s;
      assert s[i..] == [s[i]] + s[i + 1..];
    }
  }

  /** For names without dot bytes, the key identifies the question up to case. */
  lemma EqualKeysWithoutDots(r: Request, q: Request)
    requires WellFormed(r.name) && WellFormed(q.name) && DotFree(r.name) && DotFree(q.name)
    ensures Key(r) == Key(q) <==>
            (r.rtype == q.rtype && r.rclass == q.rclass && r.dnssecOk == q.dnssecOk &&
             r.checkingDisabled == q.checkingDisabled && SameName(r.name, q.name))
  {
    EqualKeys(r, q);
    SamePieces(r.name, q.name);
  }

  lemma SamePieces(a: Labels, b: Labels)
    requires DotFree(a) && DotFree(b)
    ensures LowerPieces(a, 0) == LowerPieces(b, 0) <==> SameName(a, b)
  {
    PiecesAreLabels(a, 0);
    PiecesAreLabels(b, 0);
    LowerLabelsAre(a);
    LowerLabelsAre(b);
    SameAtEach(a, b, LowerPieces(a, 0), LowerPieces(b, 0));
  }

  lemma SameAtEach(a: Labels, b: Labels, x: Pieces, y: Pieces)
    requires |x| == |a| && forall i :: 0 <= i < |a| ==> x[i] == Lower(a[i])
    requires |y| == |b| && forall i :: 0 <= i < |b| ==> y[i] == Lower(b[i])
    ensures x == y <==> SameName(a, b)
  {
    forall i | 0 <= i < |a| && i < |b|
      ensures x[i] == y[i] <==> SameLabel(a[i], b[i])
    {
      LowerMeaning(a[i], b[i]);
    }
    if x == y {
      assert forall i :: 0 <= i < |a| ==> x[i] == y[i];
    }
  }

  /** With dot bytes it does not: two labels, and one label that has a dot in place of the border between them. */
  lemma MergedLabelsCollide(r: Request, x: Bytes, y: Bytes)
    requires |x| > 0 && |y| > 0 && |x| + 1 + |y| <= 63
    ensures var two, one := r.(name := [x, y]), r.(name := [x + [DOT] + y]);
            WellFormed(two.name) && WellFormed(one.name) && !SameName(two.name, one.name) && Key(two) == Key(one)
  {
    var merged := x + [DOT] + y;
    assert Lower(merged) == Lower(x) + [DOT] + Lower(y);
    var a, b := [x, y], [merged];
    assert Dotted(a, 0) == Lower(x) + [DOT] + (Lower(y) + [DOT] + Dotted(a, 2));
    assert Dotted(b, 0) == Lower(merged) + [DOT] + Dotted(b, 1);
    assert Dotted(a, 0) == Dotted(b, 0);
    assert |Wire(a, 0)| == 1 + |x| + |Wire(a, 1)| && |Wire(a, 1)| == 1 + |y| + |Wire(a, 2)|;
    assert |Wire(b, 0)| == 1 + |merged| + |Wire(b, 1)|;
  }
}

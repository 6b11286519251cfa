/** How far `match_shortcuts` keeps the promise made for it, that a host contains each piece "in
    corresponding order" (dnsfilter/src/rule_utils.h:21-23). It looks for each piece from the sum of
    the lengths of the earlier ones, not from where they were found, so for two or more pieces there
    are always hosts it accepts out of order. */
module ShortcutOrder {
  import opened Text
  import opened Shortcuts

  const SEP := '!'

  predicate Piece(s: string) {
    s != "" && SEP !in s
  }

  predicate Pieces(parts: seq<string>) {
    forall i :: 0 <= i < |parts| ==> Piece(parts[i])
  }

  function Total(parts: seq<string>): nat {
    if parts == [] then 0 else |parts[0]| + Total(parts[1..])
  }

  function Padding(n: nat): (r: string)
    ensures |r| == n && forall i :: 0 <= i < n ==> r[i] == SEP
  {
    seq(n, _ => SEP)
  }

  /** Every piece other than `m`, each followed by a separator. */
  function Blocks(parts: seq<string>, m: string): string {
    if parts == [] then ""
    else if parts[0] == m then Blocks(parts[1..], m)
    else parts[0] + [SEP] + Blocks(parts[1..], m)
  }

  lemma AcrossSeparator(x: string, y: string, m: string, q: nat)
    requires Piece(m) && q <= |x| < q + |m| <= |x| + 1 + |y|
    ensures (x + [SEP] + y)[q..q + |m|] != m
  {
    assert (x + [SEP] + y)[q..q + |m|][|x| - q] == SEP;
    assert m[|x| - q] in m;
  }

  /** A piece never lies across a separator. */
  lemma SplitOccurrence(x: string, y: string, m: string, q: nat)
    requires Piece(m) && OccursAt(x + [SEP] + y, m, q)
    ensures OccursAt(x, m, q) || (q > |x| && OccursAt(y, m, q - |x| - 1))
  {
    var s := x + [SEP] + y;
    if q + |m| <= |x| {
      assert x[q..q + |m|] == s[q..q + |m|];
    } else if q <= |x| {
      AcrossSeparator(x, y, m, q);
    } else {
      var r := q - |x| - 1;
      assert y[r..r + |m|] == s[q..q + |m|];
    }
  }

  lemma NotInSmaller(p: string, m: string, q: nat)
    requires |p| <= |m| && p != m
    ensures !OccursAt(p, m, q)
  {
    assert p[0..|p|] == p;
  }

  ghost predicate NoLonger(parts: seq<string>, m: string) {
    forall i :: 0 <= i < |parts| ==> |parts[i]| <= |m|
  }

  lemma {:induction false} NotInBlocks(parts: seq<string>, m: string, q: nat)
    requires Piece(m) && NoLonger(parts, m)
    ensures !OccursAt(Blocks(parts, m), m, q)
  {
    if parts != [] {
      if parts[0] == m {
        NotInBlocks(parts[1..], m, q);
      } else if OccursAt(Blocks(parts, m), m, q) {
        SplitOccurrence(parts[0], Blocks(parts[1..], m), m, q);
        NotInSmaller(parts[0], m, q);
        NotInBlocks(parts[1..], m, q - |parts[0]| - 1);
      }
    }
  }

  lemma {:induction false} OnlyAtTheEnd(parts: seq<string>, m: string, q: nat)
    requires Piece(m) && NoLonger(parts, m) && OccursAt(Blocks(parts, m) + m, m, q)
    ensures q == |Blocks(parts, m)|
  {
    if parts != [] {
      var rest := Blocks(parts[1..], m);
      if parts[0] == m {
        OnlyAtTheEnd(parts[1..], m, q);
      } else {
        assert Blocks(parts, m) + m == parts[0] + [SEP] + (rest + m);
        SplitOccurrence(parts[0], rest + m, m, q);
        NotInSmaller(parts[0], m, q);
        OnlyAtTheEnd(parts[1..], m, q - |parts[0]| - 1);
      }
    }
  }

  lemma {:induction false} InBlocks(parts: seq<string>, m: string, i: nat) returns (q: nat)
    requires i < |parts| && parts[i] != m
    ensures OccursAt(Blocks(parts, m), parts[i], q)
  {
    if i == 0 {
      q := 0;
    } else {
      var r := InBlocks(parts[1..], m, i - 1);
      q := if parts[0] == m then r else r + |parts[0]| + 1;
      if parts[0] != m {
        var b := Blocks(parts[1..], m);
        assert (parts[0] + [SEP] + b)[q..q + |parts[i]|] == b[r..r + |parts[i]|];
      }
    }
  }

  lemma OccursInside(x: string, y: string, z: string, p: string, q: nat)
    requires OccursAt(y, p, q)
    ensures OccursAt(x + y + z, p, |x| + q)
  {
    assert (x + y + z)[|x| + q..|x| + q + |p|] == y[q..q + |p|];
  }

  ghost predicate OccursLate(host: string, p: string, late: nat) {
    exists q: nat :: late <= q && OccursAt(host, p, q)
  }

  ghost predicate AllOccurLate(host: string, parts: seq<string>, late: nat) {
    forall i :: 0 <= i < |parts| ==> OccursLate(host, parts[i], late)
  }

  /** Pieces that all occur late enough are found, in whatever order they occur. */
  lemma {:induction false} FoundLate(parts: seq<string>, host: string, seek: nat, late: nat)
    requires seek + Total(parts) <= late && AllOccurLate(host, parts, late)
    ensures MatchFrom(parts, host, seek)
  {
    if parts != [] {
      assert OccursLate(host, parts[0], late);
      assert forall i :: 0 <= i < |parts[1..]| ==> parts[1..][i] == parts[i + 1];
      FoundLate(parts[1..], host, seek + |parts[0]|, late);
    }
  }

  lemma {:induction false} InOrderAt(parts: seq<string>, host: string, from: nat, i: nat) returns (q: nat)
    requires i < |parts| && InOrder(parts, host, from)
    ensures from <= q && OccursAt(host, parts[i], q)
    ensures InOrder(parts[i + 1..], host, q + |parts[i]|)
    ensures i > 0 ==> exists first: nat :: OccursAt(host, parts[0], first) && first + |parts[0]| <= q
  {
    var first: nat :| from <= first && OccursAt(host, parts[0], first) && InOrder(parts[1..], host, first + |parts[0]|);
    if i == 0 {
      q := first;
    } else {
      q := InOrderAt(parts[1..], host, first + |parts[0]|, i - 1);
      assert parts[1..][i - 1..][1..] == parts[i + 1..] && parts[1..][i..] == parts[i + 1..];
    }
  }

  /** The first of the longest pieces. */
  lemma {:induction false} Longest(parts: seq<string>) returns (i: nat)
    requires parts != []
    ensures i < |parts| && NoLonger(parts, parts[i])
  {
    if |parts| == 1 {
      i := 0;
    } else {
      var k := Longest(parts[1..]);
      assert forall j :: 1 <= j < |parts| ==> parts[j] == parts[1..][j - 1];
      i := if |parts[0]| >= |parts[k + 1]| then 0 else k + 1;
    }
  }

  lemma NotInPadding(n: nat, z: string, p: string, q: nat)
    requires Piece(p) && OccursAt(Padding(n) + z, p, q)
    ensures q >= n && OccursAt(z, p, q - n)
  {
    var s := Padding(n) + z;
    assert s[q..q + |p|][0] == p[0];
    assert z[q - n..q - n + |p|] == s[q..q + |p|];
  }

  /** A host that holds `m` and, in `blocks`, all the other pieces behind the padding. */
  lemma AllInHost(parts: seq<string>, m: string, host: string, n: nat, before: string, after: string)
    requires host == before + Blocks(parts, m) + after && n <= |before|
    requires OccursLate(host, m, n)
    ensures AllOccurLate(host, parts, n)
  {
    forall j | 0 <= j < |parts|
      ensures OccursLate(host, parts[j], n)
    {
      if parts[j] != m {
        var q := InBlocks(parts, m, j);
        OccursInside(before, Blocks(parts, m), after, parts[j], q);
      }
    }
  }

  /** The host for a longest piece that is not the last: all the others, and it at the end. */
  function EndHost(parts: seq<string>, m: string): string {
    Padding(Total(parts)) + (Blocks(parts, m) + m + [SEP])
  }

  lemma NotInOrderAtEnd(parts: seq<string>, i: nat)
    requires Pieces(parts) && i + 1 < |parts| && NoLonger(parts, parts[i])
    ensures !InOrder(parts, EndHost(parts, parts[i]), 0)
  {
    var m := parts[i];
    var host := EndHost(parts, m);
    if InOrder(parts, host, 0) {
      var q := InOrderAt(parts, host, 0, i);
      EndsTheHost(parts, m, q);
      NothingAfterTheEnd(parts[i + 1..], host);
    }
  }

  lemma EndsTheHost(parts: seq<string>, m: string, q: nat)
    requires Piece(m) && NoLonger(parts, m) && OccursAt(EndHost(parts, m), m, q)
    ensures q + |m| == |EndHost(parts, m)| - 1
  {
    NotInPadding(Total(parts), Blocks(parts, m) + m + [SEP], m, q);
    assert Blocks(parts, m) + m + [SEP] == Blocks(parts, m) + m + [SEP] + "";
    SplitOccurrence(Blocks(parts, m) + m, "", m, q - Total(parts));
    OnlyAtTheEnd(parts, m, q - Total(parts));
  }

  lemma NothingAfterTheEnd(parts: seq<string>, host: string)
    requires parts != [] && Piece(parts[0]) && host != "" && host[|host| - 1] == SEP
    ensures !InOrder(parts, host, |host| - 1)
  {
    assert parts[0][0] in parts[0];
  }

  /** A longest piece that is not the last: put it at the very end of the host. */
  lemma DisorderAtEnd(parts: seq<string>, i: nat) returns (host: string)
    requires Pieces(parts) && i + 1 < |parts| && NoLonger(parts, parts[i])
    ensures MatchShortcuts(parts, host) && !InOrder(parts, host, 0) && (AllLower(parts) ==> IsLower(host))
    ensures FitName(parts) ==> IsShortName(host)
  {
    var m, n := parts[i], Total(parts);
    var pad, blocks := Padding(n), Blocks(parts, m);
    NotInOrderAtEnd(parts, i);
    host := EndHost(parts, m);
    assert host == pad + blocks + (m + [SEP]);
    assert OccursAt(host, m, n + |blocks|);
    AllInHost(parts, m, host, n, pad, m + [SEP]);
    FoundLate(parts, host, 0, n);
    if AllLower(parts) {
      BlocksAreLower(parts, m);
      LowerThree(pad, blocks, m + [SEP]);
    }
    if FitName(parts) {
      EndHostIsName(parts, i);
    }
  }

  ghost predicate AllLower(parts: seq<string>) {
    forall i :: 0 <= i < |parts| ==> IsLower(parts[i])
  }

  lemma LowerThree(a: string, b: string, c: string)
    requires IsLower(a) && IsLower(b) && IsLower(c)
    ensures IsLower(a + b + c)
  {
  }

  lemma {:induction false} BlocksAreLower(parts: seq<string>, m: string)
    requires AllLower(parts)
    ensures IsLower(Blocks(parts, m))
  {
    if parts != [] {
      assert AllLower(parts[1..]);
      BlocksAreLower(parts[1..], m);
      LowerThree(parts[0], [SEP], Blocks(parts[1..], m));
    }
  }

  lemma FirstAndLast(parts: seq<string>, host: string) returns (first: nat, last: nat)
    requires |parts| > 1 && InOrder(parts, host, 0)
    ensures OccursAt(host, parts[0], first) && OccursAt(host, parts[|parts| - 1], last)
    ensures first + |parts[0]| <= last
  {
    last := InOrderAt(parts, host, 0, |parts| - 1);
    first :| OccursAt(host, parts[0], first) && first + |parts[0]| <= last;
  }

  /** The host for a longest piece that is the last: it before all the others. */
  function StartHost(parts: seq<string>, m: string): string {
    Padding(Total(parts)) + (m + [SEP] + Blocks(parts, m))
  }

  lemma NotInOrderAtStart(parts: seq<string>)
    requires Pieces(parts) && |parts| > 1 && NoLonger(parts, parts[|parts| - 1])
    ensures !InOrder(parts, StartHost(parts, parts[|parts| - 1]), 0)
  {
    var m, n := parts[|parts| - 1], Total(parts);
    var host := StartHost(parts, m);
    if InOrder(parts, host, 0) {
      var first, q := FirstAndLast(parts, host);
      OnlyBehindPadding(parts, m, n, q);
      NothingInPadding(n, m + [SEP] + Blocks(parts, m), parts[0], first);
    }
  }

  /** A longest piece that stands before the others is nowhere else. */
  lemma OnlyBehindPadding(parts: seq<string>, m: string, n: nat, q: nat)
    requires Piece(m) && NoLonger(parts, m) && OccursAt(Padding(n) + (m + [SEP] + Blocks(parts, m)), m, q)
    ensures q == n
  {
    NotInPadding(n, m + [SEP] + Blocks(parts, m), m, q);
    OnlyAtTheStart(parts, m, q - n);
  }

  lemma NothingInPadding(n: nat, z: string, p: string, q: nat)
    requires Piece(p) && q + |p| <= n
    ensures !OccursAt(Padding(n) + z, p, q)
  {
    assert (Padding(n) + z)[q..q + |p|][0] == SEP;
    assert p[0] in p;
  }

  lemma OnlyAtTheStart(parts: seq<string>, m: string, q: nat)
    requires Piece(m) && NoLonger(parts, m) && OccursAt(m + [SEP] + Blocks(parts, m), m, q)
    ensures q == 0
  {
    SplitOccurrence(m, Blocks(parts, m), m, q);
    if q > |m| {
      NotInBlocks(parts, m, q - |m| - 1);
    }
  }

  /** A longest piece that is the last: put it before all the others. */
  lemma DisorderAtStart(parts: seq<string>) returns (host: string)
    requires Pieces(parts) && |parts| > 1 && NoLonger(parts, parts[|parts| - 1])
    ensures MatchShortcuts(parts, host) && !InOrder(parts, host, 0) && (AllLower(parts) ==> IsLower(host))
    ensures FitName(parts) ==> IsShortName(host)
  {
    var m, n := parts[|parts| - 1], Total(parts);
    var pad, blocks := Padding(n), Blocks(parts, m);
    NotInOrderAtStart(parts);
    host := StartHost(parts, m);
    assert host == (pad + (m + [SEP])) + blocks + "";
    assert OccursAt(host, m, n);
    AllInHost(parts, m, host, n, pad + (m + [SEP]), "");
    FoundLate(parts, host, 0, n);
    if AllLower(parts) {
      BlocksAreLower(parts, m);
      LowerThree(m, [SEP], blocks);
      LowerThree(pad, m + [SEP] + blocks, "");
      assert pad + (m + [SEP] + blocks) + "" == host;
    }
    if FitName(parts) {
      StartHostIsName(parts, |parts| - 1);
    }
  }

  // ----- hosts that are names ---------------------------------------------------------------------------------

  predicate NoDoubleDot(s: string) {
    forall i :: 0 <= i < |s| - 1 ==> !(s[i] == '.' && s[i + 1] == '.')
  }

  /** A name without empty labels that is as a whole no longer than a label may be (section 2.3.4 of RFC 1035). */
  predicate IsShortName(s: string) {
    0 < |s| <= 63 && s[0] != '.' && s[|s| - 1] != '.' && NoDoubleDot(s)
  }

  /** Pieces for which the hosts above are such names. */
  predicate FitName(parts: seq<string>) {
    2 * Total(parts) + |parts| <= 63 && forall i :: 0 <= i < |parts| ==> NoDoubleDot(parts[i])
  }

  lemma JoinedDots(x: string, y: string)
    requires NoDoubleDot(x) && NoDoubleDot(y)
    ensures NoDoubleDot(x + [SEP] + y)
  {
    var s := x + [SEP] + y;
    forall i | 0 <= i < |s| - 1
      ensures !(s[i] == '.' && s[i + 1] == '.')
    {
      if i > |x| {
        assert s[i] == y[i - |x| - 1] && s[i + 1] == y[i - |x|];
      }
    }
  }

  lemma {:induction false} BlocksHaveNoDoubleDot(parts: seq<string>, m: string)
    requires forall i :: 0 <= i < |parts| ==> NoDoubleDot(parts[i])
    ensures NoDoubleDot(Blocks(parts, m))
    ensures Blocks(parts, m) == "" || Blocks(parts, m)[|Blocks(parts, m)| - 1] == SEP
  {
    if parts != [] {
      BlocksHaveNoDoubleDot(parts[1..], m);
      JoinedDots(parts[0], Blocks(parts[1..], m));
    }
  }

  lemma {:induction false} BlocksSize(parts: seq<string>, m: string)
    ensures |Blocks(parts, m)| <= Total(parts) + |parts|
    ensures m in parts ==> |Blocks(parts, m)| + |m| + 1 <= Total(parts) + |parts|
  {
    if parts != [] {
      BlocksSize(parts[1..], m);
      assert m in parts ==> m == parts[0] || m in parts[1..];
    }
  }

  lemma PaddedIsName(n: nat, tail: string)
    requires 0 < n && n + |tail| <= 63 && tail != "" && tail[|tail| - 1] == SEP && NoDoubleDot(tail)
    ensures IsShortName(Padding(n) + tail)
  {
    assert NoDoubleDot(Padding(n - 1));
    assert Padding(n) + tail == Padding(n - 1) + [SEP] + tail;
    JoinedDots(Padding(n - 1), tail);
  }

  lemma TotalIsPositive(parts: seq<string>, i: nat)
    requires i < |parts| && parts[i] != ""
    ensures Total(parts) > 0
  {
    if i > 0 {
      TotalIsPositive(parts[1..], i - 1);
    }
  }

  lemma EndHostIsName(parts: seq<string>, i: nat)
    requires i < |parts| && Pieces(parts) && FitName(parts)
    ensures IsShortName(EndHost(parts, parts[i]))
  {
    var m := parts[i];
    TotalIsPositive(parts, i);
    BlocksSize(parts, m);
    EndTail(parts, m);
    PaddedIsName(Total(parts), Blocks(parts, m) + m + [SEP]);
  }

  lemma EndTail(parts: seq<string>, m: string)
    requires NoDoubleDot(m) && forall i :: 0 <= i < |parts| ==> NoDoubleDot(parts[i])
    ensures NoDoubleDot(Blocks(parts, m) + m + [SEP])
  {
    var blocks := Blocks(parts, m);
    BlocksHaveNoDoubleDot(parts, m);
    if blocks == "" {
      assert blocks + m + [SEP] == m + [SEP] + "";
      JoinedDots(m, "");
    } else {
      var front := blocks[..|blocks| - 1];
      assert front + [SEP] == blocks;
      JoinedDots(front, m);
      JoinedDots(blocks + m, "");
      assert blocks + m + [SEP] == (blocks + m) + [SEP] + "";
    }
  }

  lemma StartHostIsName(parts: seq<string>, i: nat)
    requires i < |parts| && Pieces(parts) && FitName(parts)
    ensures IsShortName(StartHost(parts, parts[i]))
  {
    var m := parts[i];
    TotalIsPositive(parts, i);
    BlocksSize(parts, m);
    BlocksHaveNoDoubleDot(parts, m);
    JoinedDots(m, Blocks(parts, m));
    PaddedIsName(Total(parts), m + [SEP] + Blocks(parts, m));
  }

  // ----- which rules keep the order ---------------------------------------------------------------------------

  /** For two or more pieces there is a host that is let through without holding them in order. */
  lemma DisorderedHost(parts: seq<string>) returns (host: string)
    requires Pieces(parts) && |parts| > 1
    ensures MatchShortcuts(parts, host) && !InOrder(parts, host, 0) && (AllLower(parts) ==> IsLower(host))
    ensures FitName(parts) ==> IsShortName(host)
  {
    var i := Longest(parts);
    if i + 1 < |parts| {
      host := DisorderAtEnd(parts, i);
    } else {
      host := DisorderAtStart(parts);
    }
  }

  /** A single piece is found exactly where it occurs. */
  lemma OnePieceIsInOrder(piece: string, host: string)
    ensures MatchShortcuts([piece], host) <==> InOrder([piece], host, 0)
  {
    var parts := [piece];
    if MatchShortcuts(parts, host) {
      var q := Find(host, parts[0], 0).value;
      assert OccursAt(host, parts[0], q) && InOrder(parts[1..], host, q + |parts[0]|);
    }
    if InOrder(parts, host, 0) {
      InOrderIsFound(parts, host, 0, 0);
    }
  }

  /** The promise is kept on every host exactly for rules of a single piece. If the pieces are short enough, no more rules
      keep it on names. */
  lemma OrderIsKeptForOnePieceOnly(parts: seq<string>)
    requires Pieces(parts) && parts != []
    ensures (forall host :: MatchShortcuts(parts, host) <==> InOrder(parts, host, 0)) <==> |parts| == 1
    ensures FitName(parts) ==>
              ((forall host :: IsShortName(host) ==> (MatchShortcuts(parts, host) <==> InOrder(parts, host, 0))) <==>
               |parts| == 1)
  {
    if |parts| == 1 {
      assert parts == [parts[0]];
      forall host
        ensures MatchShortcuts(parts, host) <==> InOrder(parts, host, 0)
      {
        OnePieceIsInOrder(parts[0], host);
      }
    } else {
      var host := DisorderedHost(parts);
      assert !(MatchShortcuts(parts, host) <==> InOrder(parts, host, 0));
    }
  }
}

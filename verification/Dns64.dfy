/** DNS64: proxy/src/dns64.cpp. An IPv4 address is embedded behind a prefix, around byte 8 of the IPv6
    address, which stays zero (section 2.2 of RFC 6052); the prefix is discovered in the synthesized
    addresses of a well-known name (section 3 of RFC 7050). */
module Dns64 {
  import opened Text

  const WKA0: Bytes := [192, 0, 0, 170]
  const WKA1: Bytes := [192, 0, 0, 171]

  predicate IsWellKnown(w: Bytes) { w == WKA0 || w == WKA1 }

  const NULL_INDEX := 8

  // ----- discovery ------------------------------------------------------------------------------------

  /** An IPv6 address without its byte 8. */
  function WithoutHole(ip6: Bytes): Bytes
    requires |ip6| > 8
  {
    ip6[..8] + ip6[9..]
  }

  /** What stands before the only occurrence of `wka`, when that is at 4 to 8. */
  function BeforeOnly(vec: Bytes, wka: Bytes): Bytes {
    var first, last := Find(vec, wka, 0), RFind(vec, wka);
    if first != last || first.None? || first.value < 4 || first.value > 8 then [] else vec[..first.value]
  }

  /** The prefix in front of the only occurrence of a well-known address, or nothing. */
  function FindWith(ip6: Bytes, wka: Bytes): Bytes
    requires |ip6| == 16 && |wka| == 4
  {
    if ip6[8] != 0 then []
    else if Find(ip6, wka, 0) == Some(12) then ip6[..12]
    else BeforeOnly(WithoutHole(ip6), wka)
  }

  function FindPref64(ip6: Bytes): Bytes
    requires |ip6| == 16
  {
    if FindWith(ip6, WKA0) != [] then FindWith(ip6, WKA0) else FindWith(ip6, WKA1)
  }

  method FindPref64Loop(ip6: Bytes) returns (pref64: Bytes)
    requires |ip6| == 16
    ensures pref64 == FindPref64(ip6)
  {
    var addresses := [WKA0, WKA1];
    for i := 0 to 2
      invariant forall j :: 0 <= j < i ==> FindWith(ip6, addresses[j]) == []
    {
      pref64 := FindWith(ip6, addresses[i]);
      if pref64 != [] {
        assert i == 1 ==> FindWith(ip6, addresses[0]) == [];
        return;
      }
    }
    assert FindWith(ip6, addresses[0]) == [] && FindWith(ip6, addresses[1]) == [];
    pref64 := [];
  }

  // ----- synthesis ------------------------------------------------------------------------------------

  predicate Pref64Valid(p: Bytes) {
    4 <= |p| <= 8 || (|p| == 12 && p[NULL_INDEX] == 0)
  }

  function Zeros(n: nat): (r: Bytes)
    ensures |r| == n && forall i :: 0 <= i < n ==> r[i] == 0
  {
    seq(n, _ => 0)
  }

  /** The synthesized address: prefix, IPv4 address and zeros, with a zero put in at byte 8. */
  function Embed(p: Bytes, ip4: Bytes): (r: Bytes)
    requires Pref64Valid(p) && |ip4| == 4
    ensures |r| == 16
  {
    if |p| == 12 then p + ip4
    else
      var vec := p + ip4 + Zeros(11 - |p|);
      vec[..8] + [0] + vec[8..]
  }

  /** Byte `i` of the address: the bytes behind the prefix skip byte 8. */
  lemma EmbedByte(p: Bytes, ip4: Bytes, i: nat)
    requires Pref64Valid(p) && |ip4| == 4 && i < 16
    ensures Embed(p, ip4)[i] ==
            if i < |p| then p[i]
            else if i == NULL_INDEX then 0
            else var k := i - |p| - (if |p| <= NULL_INDEX < i then 1 else 0); if k < 4 then ip4[k] else 0
  {
  }

  /** The six formats (section 2.2 of RFC 6052). */
  lemma Formats(p: Bytes, ip4: Bytes)
    requires Pref64Valid(p) && |ip4| == 4
    ensures |p| == 4 ==> Embed(p, ip4) == p + ip4 + Zeros(8)
    ensures |p| == 5 ==> Embed(p, ip4) == p + ip4[..3] + [0] + ip4[3..] + Zeros(6)
    ensures |p| == 6 ==> Embed(p, ip4) == p + ip4[..2] + [0] + ip4[2..] + Zeros(5)
    ensures |p| == 7 ==> Embed(p, ip4) == p + ip4[..1] + [0] + ip4[1..] + Zeros(4)
    ensures |p| == 8 ==> Embed(p, ip4) == p + [0] + ip4 + Zeros(3)
    ensures |p| == 12 ==> Embed(p, ip4) == p + ip4
  {
  }

  method Synthesize(prefix: Bytes, ip4: Bytes) returns (r: Option<Bytes>)
    ensures r.Some? <==> Pref64Valid(prefix) && |ip4| == 4
    ensures r.Some? ==> r.value == Embed(prefix, ip4)
  {
    if !Pref64Valid(prefix) || |ip4| != 4 {
      return None;
    }
    var result := new Byte[16](_ => 0);
    forall j | 0 <= j < |prefix| {
      result[j] := prefix[j];
    }
    var k, i := 0, |prefix|;
    while i < 16 && k < 4
      invariant |prefix| <= i <= 16 && 0 <= k <= 4
      invariant k == i - |prefix| - (if |prefix| <= NULL_INDEX < i then 1 else 0)
      invariant forall j :: 0 <= j < i ==> result[j] == Embed(prefix, ip4)[j]
      invariant forall j :: i <= j < 16 ==> result[j] == 0
    {
      EmbedByte(prefix, ip4, i);
      if i != NULL_INDEX {
        result[i] := ip4[k];
        k := k + 1;
      }
      i := i + 1;
    }
    forall j | i <= j < 16
      ensures Embed(prefix, ip4)[j] == 0
    {
      EmbedByte(prefix, ip4, j);
    }
    assert result[..] == Embed(prefix, ip4);
    r := Some(result[..]);
  }

  // ----- where well-known addresses can be ------------------------------------------------------------

  ghost predicate Contains(s: Bytes, w: Bytes) {
    exists i :: OccursAt(s, w, i)
  }

  /** Behind a prefix and before zeros, a well-known address does not overlap another one. */
  lemma OnlyInPrefix(p: Bytes, w: Bytes, y: Bytes, n: nat, i: int)
    requires IsWellKnown(w) && IsWellKnown(y)
    ensures OccursAt(p + w + Zeros(n), y, i) <==> OccursAt(p, y, i) || (i == |p| && w == y)
  {
    var s := p + w + Zeros(n);
    if 0 <= i <= |s| - 4 {
      assert s[i..i + 4] == [s[i], s[i + 1], s[i + 2], s[i + 3]];
      if i + 4 <= |p| {
        assert s[i..i + 4] == p[i..i + 4];
      } else if i < |p| {
        assert s[|p|] == 192;
      } else if i == |p| {
        assert s[i..i + 4] == w;
      } else {
        assert s[i] != 192;
      }
    }
  }

  /** The two ways in which an address behind a short prefix is read. */
  lemma ShortWithoutHole(p: Bytes, w: Bytes)
    requires 4 <= |p| <= 8 && IsWellKnown(w)
    ensures WithoutHole(Embed(p, w)) == p + w + Zeros(11 - |p|)
    ensures Embed(p, w)[8] == 0 && forall y :: IsWellKnown(y) ==> !OccursAt(Embed(p, w), y, 12)
  {
    var vec := p + w + Zeros(11 - |p|);
    var ip6 := Embed(p, w);
    assert ip6[..8] == vec[..8] && ip6[9..] == vec[8..];
    assert vec[..8] + vec[8..] == vec;
    assert ip6[12] == vec[11] && vec[11] != 192;
    forall y | IsWellKnown(y)
      ensures !OccursAt(ip6, y, 12)
    {
      NotThere(ip6, y);
    }
  }

  lemma NotThere(ip6: Bytes, y: Bytes)
    requires |ip6| == 16 && IsWellKnown(y) && ip6[12] != 192
    ensures !OccursAt(ip6, y, 12)
  {
    assert y[0] == 192;
    assert ip6[12..16][0] == ip6[12];
  }

  // ----- discovery on synthesized addresses -----------------------------------------------------------

  lemma BeforeOnlyMeaning(vec: Bytes, y: Bytes, i: nat)
    requires OccursAt(vec, y, i)
    ensures (forall j :: OccursAt(vec, y, j) ==> j == i) ==>
              BeforeOnly(vec, y) == if 4 <= i <= 8 then vec[..i] else []
    ensures (exists j :: OccursAt(vec, y, j) && j != i) ==> BeforeOnly(vec, y) == []
  {
  }

  lemma BeforeOnlyNone(vec: Bytes, y: Bytes)
    requires forall j :: !OccursAt(vec, y, j)
    ensures BeforeOnly(vec, y) == []
  {
  }

  /** The occurrences of `y` in a vector are those in the prefix, and the embedded address itself. */
  ghost predicate Placed(vec: Bytes, p: Bytes, w: Bytes, y: Bytes) {
    && |p| <= |vec| && vec[..|p|] == p
    && forall i :: OccursAt(vec, y, i) <==> OccursAt(p, y, i) || (i == |p| && w == y)
  }

  lemma PlacedWhole(p: Bytes, w: Bytes, y: Bytes, n: nat)
    requires IsWellKnown(w) && IsWellKnown(y)
    ensures Placed(p + w + Zeros(n), p, w, y)
  {
    var vec := p + w + Zeros(n);
    assert vec[..|p|] == p;
    forall i
      ensures OccursAt(vec, y, i) <==> OccursAt(p, y, i) || (i == |p| && w == y)
    {
      OnlyInPrefix(p, w, y, n, i);
    }
  }

  lemma OwnAddress(vec: Bytes, p: Bytes, w: Bytes)
    requires Placed(vec, p, w, w) && |w| == 4
    ensures BeforeOnly(vec, w) == if Contains(p, w) || !(4 <= |p| <= 8) then [] else p
  {
    BeforeOnlyMeaning(vec, w, |p|);
    if Contains(p, w) {
      var i :| OccursAt(p, w, i);
      assert OccursAt(vec, w, i) && i != |p|;
    }
  }

  /** `y` occurs once in `p`, and not before position 4. */
  ghost predicate OnceLate(p: Bytes, y: Bytes) {
    exists i :: 4 <= i <= 8 && OccursAt(p, y, i) && forall j :: OccursAt(p, y, j) ==> j == i
  }

  lemma OtherAddress(vec: Bytes, p: Bytes, w: Bytes, y: Bytes)
    requires Placed(vec, p, w, y) && w != y && |y| == 4 && 4 <= |p| <= 12
    ensures BeforeOnly(vec, y) == [] <==> !OnceLate(p, y)
    ensures |BeforeOnly(vec, y)| <= 8 && BeforeOnly(vec, y) != p
  {
    if i :| OccursAt(p, y, i) {
      assert OccursAt(vec, y, i);
      BeforeOnlyMeaning(vec, y, i);
      if j :| OccursAt(p, y, j) && j != i {
        assert OccursAt(vec, y, j);
      }
    } else {
      BeforeOnlyNone(vec, y);
    }
  }

  /** A prefix as it is read without byte 8. */
  function PrefixWithoutHole(p: Bytes): Bytes
    requires Pref64Valid(p)
  {
    if |p| == 12 then WithoutHole(p) else p
  }

  lemma LongWithoutHole(p: Bytes, w: Bytes)
    requires |p| == 12 && p[8] == 0 && IsWellKnown(w)
    ensures WithoutHole(Embed(p, w)) == WithoutHole(p) + w + Zeros(0)
    ensures Embed(p, w)[8] == 0 && Embed(p, w) == p + w + Zeros(0)
  {
    assert (p + w)[9..] == p[9..] + w;
    assert (p + w)[..8] == p[..8];
  }

  lemma LongFirst(ip6: Bytes, p: Bytes, w: Bytes, y: Bytes)
    requires Placed(ip6, p, w, y) && |p| == 12 && |y| == 4
    ensures Find(ip6, y, 0) == Some(12) <==> w == y && !Contains(p, y)
  {
    if Contains(p, y) {
      var i :| OccursAt(p, y, i);
      assert OccursAt(ip6, y, i) && i < 12;
    }
    assert OccursAt(ip6, y, 12) <==> w == y;
  }

  lemma FindWithLong(p: Bytes, w: Bytes, y: Bytes)
    requires |p| == 12 && p[8] == 0 && IsWellKnown(w) && IsWellKnown(y)
    ensures FindWith(Embed(p, w), y) ==
            if w == y && !Contains(p, y) then p else BeforeOnly(WithoutHole(p) + w + Zeros(0), y)
  {
    LongWithoutHole(p, w);
    PlacedWhole(p, w, y, 0);
    LongFirst(Embed(p, w), p, w, y);
    assert Embed(p, w)[..12] == p;
  }

  lemma FindWithShort(p: Bytes, w: Bytes, y: Bytes)
    requires 4 <= |p| <= 8 && IsWellKnown(w) && IsWellKnown(y)
    ensures FindWith(Embed(p, w), y) == BeforeOnly(p + w + Zeros(11 - |p|), y)
  {
    ShortWithoutHole(p, w);
  }

  /** Looking for the address that was embedded. */
  lemma FindsOwn(p: Bytes, w: Bytes)
    requires Pref64Valid(p) && IsWellKnown(w)
    ensures FindWith(Embed(p, w), w) == if Contains(p, w) then [] else p
  {
    if |p| == 12 {
      FindWithLong(p, w, w);
      PlacedWhole(WithoutHole(p), w, w, 0);
      OwnAddress(WithoutHole(p) + w + Zeros(0), WithoutHole(p), w);
    } else {
      FindWithShort(p, w, w);
      PlacedWhole(p, w, w, 11 - |p|);
      OwnAddress(p + w + Zeros(11 - |p|), p, w);
    }
  }

  /** Looking for the other address finds something only in the prefix itself. */
  lemma FindsOther(p: Bytes, w: Bytes, y: Bytes)
    requires Pref64Valid(p) && IsWellKnown(w) && IsWellKnown(y) && w != y
    ensures FindWith(Embed(p, w), y) == [] <==> !OnceLate(PrefixWithoutHole(p), y)
    ensures FindWith(Embed(p, w), y) != p
  {
    var q := PrefixWithoutHole(p);
    if |p| == 12 {
      FindWithLong(p, w, y);
      PlacedWhole(q, w, y, 0);
      OtherAddress(q + w + Zeros(0), q, w, y);
    } else {
      FindWithShort(p, w, y);
      PlacedWhole(q, w, y, 11 - |p|);
      OtherAddress(q + w + Zeros(11 - |p|), q, w, y);
    }
  }

  /** Discovery inverts synthesis exactly for these prefixes. */
  lemma DiscoveryInvertsSynthesis(p: Bytes)
    requires Pref64Valid(p)
    ensures FindPref64(Embed(p, [192, 0, 0, 170])) == p <==> !Contains(p, [192, 0, 0, 170])
    ensures FindPref64(Embed(p, [192, 0, 0, 171])) == p <==>
            !Contains(p, [192, 0, 0, 171]) && !OnceLate(PrefixWithoutHole(p), [192, 0, 0, 170])
  {
    FindsOwn(p, WKA0);
    FindsOther(p, WKA0, WKA1);
    FindsOwn(p, WKA1);
    FindsOther(p, WKA1, WKA0);
  }

  /** A prefix that has a well-known address in it is not found from that address, wherever it stands. */
  lemma PrefixWithAddressIsLost(x: Bytes, w: Bytes, y: Bytes)
    requires IsWellKnown(w) && Pref64Valid(x + w + y)
    ensures FindPref64(Embed(x + w + y, w)) != x + w + y
  {
    var p := x + w + y;
    assert p[|x|..|x| + 4] == w;
    assert OccursAt(p, w, |x|);
    DiscoveryInvertsSynthesis(p);
  }

  /** A prefix of eight bytes that ends in the first address is cut before it when it is read from the second one. */
  lemma PrefixEndingInAddressIsCut(x: Bytes)
    requires |x| == 4 && x != WKA0
    ensures FindPref64(Embed(x + WKA0, WKA1)) == x
  {
    FindWithShort(x + WKA0, WKA1, WKA0);
    CutBefore(x, x + WKA0 + WKA1 + Zeros(3));
  }

  lemma CutBefore(x: Bytes, vec: Bytes)
    requires |x| == 4 && x != WKA0 && vec == x + WKA0 + WKA1 + Zeros(3)
    ensures BeforeOnly(vec, WKA0) == x
  {
    OnlyBehind(x, vec);
    assert vec[..4] == x;
  }

  lemma OnlyBehind(x: Bytes, vec: Bytes)
    requires |x| == 4 && x != WKA0 && vec == x + WKA0 + WKA1 + Zeros(3)
    ensures OccursAt(vec, WKA0, 4) && forall i :: OccursAt(vec, WKA0, i) ==> i == 4
  {
    assert vec[4..8] == WKA0;
    forall i | OccursAt(vec, WKA0, i)
      ensures i == 4
    {
      var found := vec[i..i + 4];
      assert found[0] == vec[i] == 192 && found[3] == vec[i + 3] == 170;
      assert i == 0 ==> found == x;
    }
  }

  /** A prefix in which neither address occurs, read with or without byte 8. */
  ghost predicate Clean(p: Bytes) {
    && Pref64Valid(p)
    && forall w :: IsWellKnown(w) ==> !Contains(p, w) && !Contains(PrefixWithoutHole(p), w)
  }

  lemma CleanPrefixIsFound(p: Bytes, w: Bytes)
    requires Clean(p) && IsWellKnown(w)
    ensures FindPref64(Embed(p, w)) == p
  {
    DiscoveryInvertsSynthesis(p);
    assert IsWellKnown(WKA0) && IsWellKnown(WKA1);
  }

  // ----- what a discovered prefix says about the address -------------------------------------------------

  /** Synthesis from `r` and `w` gives back `ip6` through the last byte of the embedded address. */
  ghost predicate Explains(r: Bytes, w: Bytes, ip6: Bytes) {
    && Pref64Valid(r) && |w| == 4 && |ip6| == 16
    && var n := if |r| == 12 then 16 else |r| + 5; Embed(r, w)[..n] == ip6[..n]
  }

  lemma ShortExplains(ip6: Bytes, w: Bytes, i: nat)
    requires |ip6| == 16 && ip6[8] == 0 && |w| == 4 && 4 <= i <= 8 && OccursAt(WithoutHole(ip6), w, i)
    ensures Explains(WithoutHole(ip6)[..i], w, ip6)
  {
    var vec := WithoutHole(ip6);
    var r := vec[..i];
    var found := vec[i..i + 4];
    assert forall k :: 0 <= k < 4 ==> found[k] == vec[i + k];
    forall k | 0 <= k < i + 5
      ensures Embed(r, w)[k] == ip6[k]
    {
      EmbedByte(r, w, k);
    }
    assert Embed(r, w)[..i + 5] == ip6[..i + 5];
  }

  lemma FoundExplains(ip6: Bytes, w: Bytes)
    requires |ip6| == 16 && |w| == 4 && FindWith(ip6, w) != []
    ensures Explains(FindWith(ip6, w), w, ip6)
  {
    if Find(ip6, w, 0) == Some(12) {
      assert ip6 == ip6[..12] + ip6[12..16];
    } else {
      ShortExplains(ip6, w, Find(WithoutHole(ip6), w, 0).value);
    }
  }

  /** Every discovered prefix is valid and accounts for the address it was read from. */
  lemma DiscoveredPrefixExplains(ip6: Bytes)
    requires |ip6| == 16 && FindPref64(ip6) != []
    ensures Explains(FindPref64(ip6), WKA0, ip6) || Explains(FindPref64(ip6), WKA1, ip6)
  {
    if FindWith(ip6, WKA0) != [] {
      FoundExplains(ip6, WKA0);
    } else {
      FoundExplains(ip6, WKA1);
    }
  }

  // ----- discovery over an answer section ----------------------------------------------------------------

  datatype Answer = Answer(isAaaa: bool, rdata: Option<Bytes>)

  /** The prefix one answer record contributes; the empty prefix when it contributes none. */
  function Contribution(a: Answer): Bytes {
    if a.isAaaa && a.rdata.Some? && |a.rdata.value| == 16 then FindPref64(a.rdata.value) else []
  }

  /** The answer is an address synthesized from `p` for a well-known address, or not an address at all. */
  ghost predicate FromPrefix(a: Answer, p: Bytes)
    requires Pref64Valid(p)
  {
    a.isAaaa ==> a.rdata.Some? && exists w :: IsWellKnown(w) && a.rdata.value == Embed(p, w)
  }

  function Contributions(answers: seq<Answer>): (r: seq<Bytes>)
    ensures |r| == |answers| && forall i :: 0 <= i < |r| ==> r[i] == Contribution(answers[i])
  {
    seq(|answers|, i requires 0 <= i < |answers| => Contribution(answers[i]))
  }

  /** `result` lists the non-empty ones of the first `n`, each once and in order of first appearance, at `at`. */
  ghost predicate FirstSeen(c: seq<Bytes>, n: nat, result: seq<Bytes>, at: seq<nat>) {
    && n <= |c| && |at| == |result|
    && (forall i :: 0 <= i < n ==> c[i] == [] || c[i] in result)
    && (forall k, l :: 0 <= k < l < |at| ==> at[k] < at[l])
    && (forall k :: 0 <= k < |at| ==> at[k] < n && c[at[k]] == result[k] != [])
    && (forall k, j :: 0 <= k < |at| && 0 <= j < at[k] ==> c[j] != result[k])
  }

  lemma FirstSeenStep(c: seq<Bytes>, n: nat, result: seq<Bytes>, at: seq<nat>)
    requires n < |c| && FirstSeen(c, n, result, at)
    ensures if c[n] == [] || c[n] in result then FirstSeen(c, n + 1, result, at)
            else FirstSeen(c, n + 1, result + [c[n]], at + [n])
  {
  }

  method DiscoverPrefixes(answers: seq<Answer>) returns (result: seq<Bytes>, ghost at: seq<nat>)
    ensures FirstSeen(Contributions(answers), |answers|, result, at)
  {
    result, at := [], [];
    ghost var c := Contributions(answers);
    for i := 0 to |answers|
      invariant FirstSeen(c, i, result, at)
    {
      var a := answers[i];
      FirstSeenStep(c, i, result, at);
      if !a.isAaaa || a.rdata.None? || |a.rdata.value| != 16 {
        continue;
      }
      var pref64 := FindPref64Loop(a.rdata.value);
      if pref64 != [] && pref64 !in result {
        result, at := result + [pref64], at + [i];
      }
    }
  }

  lemma Differ(c: seq<Bytes>, result: seq<Bytes>, at: seq<nat>, k: nat, l: nat)
    requires FirstSeen(c, |c|, result, at) && k < l < |at|
    ensures result[k] != result[l]
  {
    assert at[k] < at[l] && c[at[k]] == result[k];
  }

  lemma OneContribution(p: Bytes, c: seq<Bytes>, result: seq<Bytes>, at: seq<nat>)
    requires FirstSeen(c, |c|, result, at) && p != [] && forall i :: 0 <= i < |c| ==> c[i] == p || c[i] == []
    ensures result == if p in c then [p] else []
  {
    assert forall k :: 0 <= k < |at| ==> c[at[k]] == result[k] == p;
    if |at| > 1 {
      Differ(c, result, at, 0, 1);
    } else if |at| == 1 {
      assert c[at[0]] == p;
    }
  }

  /** A server that synthesizes all its answers from one clean prefix is found to use that prefix. */
  method DiscoverOne(p: Bytes, answers: seq<Answer>) returns (result: seq<Bytes>)
    requires Clean(p) && forall i :: 0 <= i < |answers| ==> FromPrefix(answers[i], p)
    ensures result == if exists i :: 0 <= i < |answers| && answers[i].isAaaa then [p] else []
  {
    ghost var at;
    result, at := DiscoverPrefixes(answers);
    forall i | 0 <= i < |answers|
      ensures Contribution(answers[i]) == if answers[i].isAaaa then p else []
    {
      if answers[i].isAaaa {
        var w :| IsWellKnown(w) && answers[i].rdata.value == Embed(p, w);
        CleanPrefixIsFound(p, w);
      }
    }
    OneContribution(p, Contributions(answers), result, at);
    if i :| 0 <= i < |answers| && answers[i].isAaaa {
      assert Contributions(answers)[i] == p;
    }
  }
}

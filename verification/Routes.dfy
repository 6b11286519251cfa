/** The route table of common/src/route_resolver.cpp: routes sorted by their masks, and the first that matches. */
module Routes {
  import opened Text

  type Octets = seq<bv8>

  const MAX_ADDR_LEN := 16

  datatype Route = Route(address: Octets, netmask: Octets, ifIndex: nat)

  predicate IsRoute(r: Route) {
    |r.address| == |r.netmask| == MAX_ADDR_LEN
  }

  // ----- one route ----------------------------------------------------------------------------------------

  /** The masked comparison of byte `i`. */
  predicate Agrees(r: Route, dest: Octets, i: nat)
    requires IsRoute(r) && i < |dest| && i < MAX_ADDR_LEN
  {
    dest[i] & r.netmask[i] == r.address[i]
  }

  function Compared(dest: Octets): nat {
    if |dest| < MAX_ADDR_LEN then |dest| else MAX_ADDR_LEN
  }

  /** All bytes agree. */
  predicate FullMatch(r: Route, dest: Octets)
    requires IsRoute(r)
  {
    forall i :: 0 <= i < Compared(dest) ==> Agrees(r, dest, i)
  }

  /** The first zero byte of the mask, from `i` on, or the end. */
  function FirstZero(r: Route, n: nat, i: nat): (z: nat)
    requires IsRoute(r) && i <= n <= MAX_ADDR_LEN
    ensures i <= z <= n && (z < n ==> r.netmask[z] == 0) && forall j :: i <= j < z ==> r.netmask[j] != 0
    decreases n - i
  {
    if i == n || r.netmask[i] == 0 then i else FirstZero(r, n, i + 1)
  }

  /** The comparison as the source makes it: it stops at a zero byte of the mask. */
  predicate Matches(r: Route, dest: Octets)
    requires IsRoute(r)
  {
    forall i :: 0 <= i < FirstZero(r, Compared(dest), 0) ==> Agrees(r, dest, i)
  }

  lemma BeforeStop(r: Route, n: nat, i: nat)
    requires IsRoute(r) && n <= MAX_ADDR_LEN && i <= FirstZero(r, n, 0)
    ensures i < FirstZero(r, n, 0) <==> i < n && r.netmask[i] != 0
  {
  }

  method MatchesLoop(r: Route, dest: Octets) returns (ok: bool)
    requires IsRoute(r)
    ensures ok <==> Matches(r, dest)
  {
    ghost var z := FirstZero(r, Compared(dest), 0);
    var i := 0;
    BeforeStop(r, Compared(dest), 0);
    while i < |dest| && i < MAX_ADDR_LEN && r.netmask[i] != 0
      invariant 0 <= i <= z && (i < z <==> i < Compared(dest) && r.netmask[i] != 0)
      invariant forall j :: 0 <= j < i ==> Agrees(r, dest, j)
    {
      if !Agrees(r, dest, i) {
        return false;
      }
      i := i + 1;
      BeforeStop(r, Compared(dest), i);
    }
    ok := true;
  }

  // ----- when the early stop makes no difference --------------------------------------------------------------

  /** No destination agrees before the stop: the address has a bit there that the mask clears. */
  predicate NeverAgrees(r: Route, z: nat)
    requires IsRoute(r) && z <= MAX_ADDR_LEN
  {
    exists i :: 0 <= i < z && r.address[i] & r.netmask[i] != r.address[i]
  }

  /** Mask and address are zero from `z` to `n`. */
  predicate ZeroTail(r: Route, z: nat, n: nat)
    requires IsRoute(r) && n <= MAX_ADDR_LEN
  {
    forall i :: z <= i < n ==> r.netmask[i] == 0 && r.address[i] == 0
  }

  lemma MaskedTwice(d: bv8, m: bv8)
    ensures (d & m) & m == d & m
    ensures d & 0 == 0
  {
  }

  /** A byte that does not agree, unless mask and address are zero. */
  lemma Disagreeing(m: bv8, a: bv8) returns (d: bv8)
    ensures m != 0 || a != 0 ==> d & m != a
  {
    d := if 0 == a then 0xFF else 0;
  }

  /** The stop at a zero byte changes no comparison with an address of `n` bytes exactly when no address could agree up to
      there, or mask and address are zero from there on. */
  lemma EarlyStopIsExact(r: Route, n: nat)
    requires IsRoute(r) && n <= MAX_ADDR_LEN
    ensures var z := FirstZero(r, n, 0);
            (forall dest: Octets :: |dest| == n ==> (Matches(r, dest) <==> FullMatch(r, dest))) <==>
            NeverAgrees(r, z) || ZeroTail(r, z, n)
  {
    var z := FirstZero(r, n, 0);
    if NeverAgrees(r, z) || ZeroTail(r, z, n) {
      forall dest: Octets | |dest| == n
        ensures Matches(r, dest) <==> FullMatch(r, dest)
      {
        StopIsHarmless(r, dest);
      }
    } else {
      var dest := Misread(r, n);
      assert !(Matches(r, dest) <==> FullMatch(r, dest));
    }
  }

  lemma StopIsHarmless(r: Route, dest: Octets)
    requires IsRoute(r) && |dest| <= MAX_ADDR_LEN
    requires var z := FirstZero(r, |dest|, 0); NeverAgrees(r, z) || ZeroTail(r, z, |dest|)
    ensures Matches(r, dest) <==> FullMatch(r, dest)
  {
    var z := FirstZero(r, |dest|, 0);
    if ZeroTail(r, z, |dest|) {
      forall i | z <= i < |dest|
        ensures Agrees(r, dest, i)
      {
        ZeroAgrees(r, dest, i);
      }
    } else {
      var i := NoneAgrees(r, dest, z);
    }
  }

  lemma ZeroAgrees(r: Route, dest: Octets, i: nat)
    requires IsRoute(r) && i < |dest| && i < MAX_ADDR_LEN && r.netmask[i] == 0 && r.address[i] == 0
    ensures Agrees(r, dest, i)
  {
    MaskedTwice(dest[i], 0);
  }

  lemma NoneAgrees(r: Route, dest: Octets, z: nat) returns (i: nat)
    requires IsRoute(r) && z <= |dest| <= MAX_ADDR_LEN && NeverAgrees(r, z)
    ensures i < z && !Agrees(r, dest, i)
  {
    i :| 0 <= i < z && r.address[i] & r.netmask[i] != r.address[i];
    MaskedTwice(dest[i], r.netmask[i]);
  }

  /** An address that the stop lets through and the full comparison does not. */
  lemma Misread(r: Route, n: nat) returns (dest: Octets)
    requires IsRoute(r) && n <= MAX_ADDR_LEN
    requires var z := FirstZero(r, n, 0); !NeverAgrees(r, z) && !ZeroTail(r, z, n)
    ensures |dest| == n && Matches(r, dest) && !FullMatch(r, dest)
  {
    var z := FirstZero(r, n, 0);
    var t :| z <= t < n && !(r.netmask[t] == 0 && r.address[t] == 0);
    var d := Disagreeing(r.netmask[t], r.address[t]);
    dest := r.address[..n][t := d];
    assert forall i :: 0 <= i < z ==> r.address[i] & r.netmask[i] == r.address[i];
    assert !Agrees(r, dest, t);
  }

  // ----- prefixes -----------------------------------------------------------------------------------------

  /** A byte whose first `n` bits are set: none for a negative `n`, all from 8 on. */
  function MaskByte(n: int): bv8 {
    if n <= 0 then 0
    else if n == 1 then 0x80
    else if n == 2 then 0xC0
    else if n == 3 then 0xE0
    else if n == 4 then 0xF0
    else if n == 5 then 0xF8
    else if n == 6 then 0xFC
    else if n == 7 then 0xFE
    else 0xFF
  }

  function Bit(b: bv8, j: nat): bool {
    b & (if j == 0 then 0x80 else if j == 1 then 0x40 else if j == 2 then 0x20 else if j == 3 then 0x10
         else if j == 4 then 0x08 else if j == 5 then 0x04 else if j == 6 then 0x02 else 0x01) != 0
  }

  /** The contiguous mask of `n` bits. */
  ghost predicate IsMask(mask: Octets, n: nat) {
    |mask| == MAX_ADDR_LEN && n <= 128 && forall i :: 0 <= i < MAX_ADDR_LEN ==> mask[i] == MaskByte(n - 8 * i)
  }

  /** A route for the first `n` bits of its address, whose other bits are zero. */
  ghost predicate IsPrefixRoute(r: Route, n: nat) {
    && IsRoute(r) && IsMask(r.netmask, n)
    && forall i :: 0 <= i < MAX_ADDR_LEN ==> r.address[i] & r.netmask[i] == r.address[i]
  }

  /** The first `n` bits of two bytes are the same. */
  predicate SameBits(a: bv8, b: bv8, n: nat) {
    n == 0 || (Bit(a, n - 1) == Bit(b, n - 1) && SameBits(a, b, n - 1))
  }

  /** The first `n` bits of the address and the destination are the same, as far as the destination goes. */
  ghost predicate SamePrefix(r: Route, dest: Octets, n: nat) {
    IsRoute(r) &&
    forall i :: 0 <= i < Compared(dest) ==> SameBits(dest[i], r.address[i], Clip(n - 8 * i))
  }

  lemma OneBitMore(d: bv8, a: bv8, n: nat)
    requires 0 < n <= 8
    ensures d & MaskByte(n) == a & MaskByte(n) <==>
            d & MaskByte(n - 1) == a & MaskByte(n - 1) && Bit(d, n - 1) == Bit(a, n - 1)
  {
    if n <= 4 {
      OneOfFirstBits(d, a, n);
    } else {
      OneOfLastBits(d, a, n);
    }
  }

  lemma OneOfFirstBits(d: bv8, a: bv8, n: nat)
    requires 0 < n <= 4
    ensures d & MaskByte(n) == a & MaskByte(n) <==>
            d & MaskByte(n - 1) == a & MaskByte(n - 1) && Bit(d, n - 1) == Bit(a, n - 1)
  {
  }

  lemma OneOfLastBits(d: bv8, a: bv8, n: nat)
    requires 4 < n <= 8
    ensures d & MaskByte(n) == a & MaskByte(n) <==>
            d & MaskByte(n - 1) == a & MaskByte(n - 1) && Bit(d, n - 1) == Bit(a, n - 1)
  {
  }

  lemma {:induction false} MaskedBits(d: bv8, a: bv8, n: nat)
    requires n <= 8
    ensures d & MaskByte(n) == a & MaskByte(n) <==> SameBits(d, a, n)
  {
    if n == 0 {
      MaskedTwice(d, 0);
      MaskedTwice(a, 0);
    } else {
      OneBitMore(d, a, n);
      MaskedBits(d, a, n - 1);
    }
  }

  lemma ClippedMask(n: int)
    ensures MaskByte(n) == MaskByte(Clip(n))
  {
  }

  lemma AgreesMeansBits(r: Route, dest: Octets, n: nat, i: nat)
    requires IsPrefixRoute(r, n) && i < |dest| <= MAX_ADDR_LEN
    ensures Agrees(r, dest, i) <==> SameBits(dest[i], r.address[i], Clip(n - 8 * i))
  {
    ClippedMask(n - 8 * i);
    MaskedMeansBits(dest[i], r.address[i], r.netmask[i], Clip(n - 8 * i));
  }

  lemma MaskedMeansBits(d: bv8, a: bv8, m: bv8, n: nat)
    requires n <= 8 && m == MaskByte(n) && a & m == a
    ensures d & m == a <==> SameBits(d, a, n)
  {
    MaskedBits(d, a, n);
  }

  lemma PrefixHasZeroTail(r: Route, n: nat, size: nat)
    requires IsPrefixRoute(r, n) && size <= MAX_ADDR_LEN
    ensures ZeroTail(r, FirstZero(r, size, 0), size)
  {
    var z := FirstZero(r, size, 0);
    forall i | z <= i < size
      ensures r.netmask[i] == 0 && r.address[i] == 0
    {
      assert r.netmask[z] == MaskByte(n - 8 * z) == 0;
      assert n - 8 * z <= 0;
      assert r.netmask[i] == MaskByte(n - 8 * i);
      MaskedTwice(r.address[i], 0);
    }
  }

  /** A route matches exactly the destinations that share its prefix. */
  lemma MatchesMeansPrefix(r: Route, dest: Octets, n: nat)
    requires IsPrefixRoute(r, n) && |dest| <= MAX_ADDR_LEN
    ensures Matches(r, dest) <==> SamePrefix(r, dest, n)
  {
    PrefixHasZeroTail(r, n, |dest|);
    StopIsHarmless(r, dest);
    forall i | 0 <= i < |dest|
      ensures Agrees(r, dest, i) <==> SameBits(dest[i], r.address[i], Clip(n - 8 * i))
    {
      AgreesMeansBits(r, dest, n, i);
    }
  }

  // ----- the order of the table -----------------------------------------------------------------------------

  /** Lexicographic order from byte `i` on. */
  predicate Greater(a: Octets, b: Octets, i: nat)
    requires |a| == |b| == MAX_ADDR_LEN && i <= MAX_ADDR_LEN
    decreases MAX_ADDR_LEN - i
  {
    i < MAX_ADDR_LEN && (a[i] > b[i] || (a[i] == b[i] && Greater(a, b, i + 1)))
  }

  /** A route comes before another when its mask is greater. */
  predicate Less(r: Route, q: Route)
    requires IsRoute(r) && IsRoute(q)
  {
    Greater(r.netmask, q.netmask, 0)
  }

  function Clip(n: int): nat { if n < 0 then 0 else if n > 8 then 8 else n }

  lemma MaskBytesGrow(m: int, n: int)
    ensures MaskByte(m) > MaskByte(n) <==> Clip(m) > Clip(n)
    ensures MaskByte(m) == MaskByte(n) <==> Clip(m) == Clip(n)
  {
  }

  lemma {:induction false} GreaterMeansLonger(a: Octets, b: Octets, m: nat, n: nat, i: nat)
    requires IsMask(a, m) && IsMask(b, n) && i <= MAX_ADDR_LEN
    ensures Greater(a, b, i) <==> m > n && m > 8 * i
    decreases MAX_ADDR_LEN - i
  {
    if i < MAX_ADDR_LEN {
      MaskBytesGrow(m - 8 * i, n - 8 * i);
      GreaterMeansLonger(a, b, m, n, i + 1);
    }
  }

  ghost predicate Sorted(table: seq<Route>) {
    && (forall i :: 0 <= i < |table| ==> IsRoute(table[i]))
    && (forall i, j :: 0 <= i < j < |table| ==> !Less(table[j], table[i]))
  }

  // ----- the lookup -----------------------------------------------------------------------------------------

  method Resolve(table: seq<Route>, dest: Octets) returns (ifIndex: Option<nat>, ghost found: nat)
    requires forall i :: 0 <= i < |table| ==> IsRoute(table[i])
    ensures ifIndex.None? <==> forall i :: 0 <= i < |table| ==> !Matches(table[i], dest)
    ensures ifIndex.Some? ==> found < |table| && ifIndex.value == table[found].ifIndex && Matches(table[found], dest)
    ensures ifIndex.Some? ==> forall i :: 0 <= i < found ==> !Matches(table[i], dest)
  {
    for i := 0 to |table|
      invariant forall j :: 0 <= j < i ==> !Matches(table[j], dest)
    {
      var ok := MatchesLoop(table[i], dest);
      if ok {
        return Some(table[i].ifIndex), i;
      }
    }
    ifIndex, found := None, 0;
  }

  /** In a sorted table of prefix routes the first match has the longest prefix of all that match. */
  lemma FirstIsLongest(table: seq<Route>, dest: Octets, found: nat, n: nat, j: nat, m: nat)
    requires Sorted(table) && found < |table| && j < |table|
    requires IsPrefixRoute(table[found], n) && IsPrefixRoute(table[j], m)
    requires Matches(table[j], dest) && forall i :: 0 <= i < found ==> !Matches(table[i], dest)
    ensures m <= n
  {
    if found < j {
      assert !Less(table[j], table[found]);
      GreaterMeansLonger(table[j].netmask, table[found].netmask, m, n, 0);
    } else if j == found {
      GreaterMeansLonger(table[j].netmask, table[found].netmask, m, n, 0);
      GreaterMeansLonger(table[found].netmask, table[j].netmask, n, m, 0);
      SameMask(table[j].netmask, m, n);
    }
  }

  lemma SameMask(a: Octets, m: nat, n: nat)
    requires IsMask(a, m) && IsMask(a, n)
    ensures m == n
  {
    GreaterMeansLonger(a, a, m, n, 0);
    GreaterMeansLonger(a, a, n, m, 0);
    NotGreaterThanItself(a, 0);
  }

  lemma {:induction false} NotGreaterThanItself(a: Octets, i: nat)
    requires |a| == MAX_ADDR_LEN && i <= MAX_ADDR_LEN
    ensures !Greater(a, a, i)
    decreases MAX_ADDR_LEN - i
  {
    if i < MAX_ADDR_LEN {
      NotGreaterThanItself(a, i + 1);
    }
  }

  /** However the sort orders routes of equal masks, the lookup gives the interface of a route whose prefix the
      destination has and than which no such route has a longer one, and nothing exactly when there is none. */
  method ResolveLongest(routes: seq<Route>, length: Route -> nat, table: seq<Route>, dest: Octets)
      returns (ifIndex: Option<nat>)
    requires |dest| <= MAX_ADDR_LEN && Sorted(table) && multiset(table) == multiset(routes)
    requires forall r :: r in routes ==> IsPrefixRoute(r, length(r))
    ensures ifIndex.None? <==> forall r :: r in routes ==> !SamePrefix(r, dest, length(r))
    ensures ifIndex.Some? ==>
              exists r :: r in routes && r.ifIndex == ifIndex.value && SamePrefix(r, dest, length(r)) &&
                          forall q :: q in routes && SamePrefix(q, dest, length(q)) ==> length(q) <= length(r)
  {
    SameElements(table, routes);
    ghost var found;
    ifIndex, found := Resolve(table, dest);
    forall r | r in routes
      ensures Matches(r, dest) <==> SamePrefix(r, dest, length(r))
    {
      MatchesMeansPrefix(r, dest, length(r));
    }
    if ifIndex.Some? {
      assert table[found] in routes;
      forall q | q in routes && Matches(q, dest)
        ensures length(q) <= length(table[found])
      {
        var j :| 0 <= j < |table| && table[j] == q;
        FirstIsLongest(table, dest, found, length(table[found]), j, length(q));
      }
    }
  }

  lemma SameElements(a: seq<Route>, b: seq<Route>)
    requires multiset(a) == multiset(b)
    ensures forall r :: r in a <==> r in b
  {
    forall r
      ensures r in a <==> r in b
    {
      assert r in a <==> r in multiset(a);
      assert r in b <==> r in multiset(b);
    }
  }
}

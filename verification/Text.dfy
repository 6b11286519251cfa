/** Strings and sequences: the pieces of the C++ standard library and of `ag::utils` that the
    filter, the line readers and the codecs are written with. */
module Text {

  datatype Option<+T> = None | Some(value: T)

  type Byte = x: int | 0 <= x < 256

  type Bytes = seq<Byte>

  // ----- sequences ------------------------------------------------------------------------------------

  lemma Regroup<T>(a: seq<T>, b: seq<T>, c: seq<T>)
    ensures (a + b) + c == a + (b + c)
  {
  }

  lemma SameTail<T>(head: seq<T>, a: seq<T>, b: seq<T>)
    ensures head + a == head + b <==> a == b
  {
    assert (head + a)[|head|..] == a && (head + b)[|head|..] == b;
  }

  function MapAll<A, B>(f: A -> B, xs: seq<A>): (r: seq<B>)
    ensures |r| == |xs| && forall i :: 0 <= i < |xs| ==> r[i] == f(xs[i])
  {
    seq(|xs|, i requires 0 <= i < |xs| => f(xs[i]))
  }

  lemma MapSnoc<A, B>(f: A -> B, xs: seq<A>, x: A)
    ensures MapAll(f, xs + [x]) == MapAll(f, xs) + [f(x)]
  {
  }

  lemma MapCons<A, B>(f: A -> B, x: A, xs: seq<A>)
    ensures MapAll(f, [x] + xs) == [f(x)] + MapAll(f, xs)
  {
  }

  /** What the first `n` items contribute together. */
  function UnionOf<A, B>(f: A -> set<B>, xs: seq<A>, n: nat): set<B>
    requires n <= |xs|
  {
    if n == 0 then {} else UnionOf(f, xs, n - 1) + f(xs[n - 1])
  }

  lemma {:induction false} UnionGrows<A, B>(f: A -> set<B>, g: A -> set<B>, xs: seq<A>, n: nat)
    requires n <= |xs| && forall i :: 0 <= i < |xs| ==> f(xs[i]) <= g(xs[i])
    ensures UnionOf(f, xs, n) <= UnionOf(g, xs, n)
    ensures (forall i :: 0 <= i < |xs| ==> f(xs[i]) == g(xs[i])) ==> UnionOf(f, xs, n) == UnionOf(g, xs, n)
  {
    if n > 0 {
      UnionGrows(f, g, xs, n - 1);
    }
  }

  lemma {:induction false} InUnion<A, B>(f: A -> set<B>, xs: seq<A>, n: nat, b: B)
    requires n <= |xs|
    ensures b in UnionOf(f, xs, n) <==> exists i :: 0 <= i < n && b in f(xs[i])
  {
    if n > 0 {
      InUnion(f, xs, n - 1, b);
    }
  }

  /** What all the items give, if each gives something. */
  function Collect<A, B>(f: A -> Option<B>, xs: seq<A>): Option<seq<B>> {
    if |xs| == 0 then Some([])
    else
      var before, last := Collect(f, xs[..|xs| - 1]), f(xs[|xs| - 1]);
      if before.Some? && last.Some? then Some(before.value + [last.value]) else None
  }

  lemma {:induction false} CollectAt<A, B>(f: A -> Option<B>, xs: seq<A>, ys: seq<B>)
    requires Collect(f, xs) == Some(ys)
    ensures |ys| == |xs| && forall i :: 0 <= i < |xs| ==> f(xs[i]) == Some(ys[i])
  {
    if |xs| > 0 {
      CollectAt(f, xs[..|xs| - 1], ys[..|ys| - 1]);
    }
  }

  // ----- characters -----------------------------------------------------------------------------------

  /** `std::tolower` of the "C" locale. */
  function LowerChar(c: char): char {
    if 'A' <= c <= 'Z' then (c as int + 32) as char else c
  }

  function ToLower(s: string): (r: string)
    ensures |r| == |s|
    ensures forall i :: 0 <= i < |s| ==> r[i] == LowerChar(s[i])
  {
    seq(|s|, i requires 0 <= i < |s| => LowerChar(s[i]))
  }

  predicate IsLower(s: string) {
    forall i :: 0 <= i < |s| ==> LowerChar(s[i]) == s[i]
  }

  lemma ToLowerIsLower(s: string)
    ensures IsLower(ToLower(s))
    ensures IsLower(s) ==> ToLower(s) == s
  {
  }

  /** Capital letters become small ones, and nothing else changes. */
  lemma LowerMeaning(s: string, i: nat)
    requires i < |s|
    ensures ToLower(s)[i] as int == if 'A' <= s[i] <= 'Z' then s[i] as int + 32 else s[i] as int
  {
  }

  /** `std::isspace` of the "C" locale. */
  predicate IsSpace(c: char) {
    c == ' ' || 9 <= c as int <= 13
  }

  /** The first position from `i` on that holds no space. */
  function SkipSpaces(s: string, i: nat): (r: nat)
    requires i <= |s|
    ensures i <= r <= |s|
    ensures r < |s| ==> !IsSpace(s[r])
    ensures i < |s| && !IsSpace(s[i]) ==> r == i
    decreases |s| - i
  {
    if i < |s| && IsSpace(s[i]) then SkipSpaces(s, i + 1) else i
  }

  /** The last position down from `hi`, and not below `lo`, that follows no space. */
  function SkipSpacesBack(s: string, lo: nat, hi: nat): (r: nat)
    requires lo <= hi <= |s|
    ensures lo <= r <= hi
    ensures r > lo ==> !IsSpace(s[r - 1])
    ensures hi > lo && !IsSpace(s[hi - 1]) ==> r == hi
  {
    if hi > lo && IsSpace(s[hi - 1]) then SkipSpacesBack(s, lo, hi - 1) else hi
  }

  function RTrim(s: string): string {
    s[..SkipSpacesBack(s, 0, |s|)]
  }

  function Trim(s: string): string {
    var start := SkipSpaces(s, 0);
    s[start..SkipSpacesBack(s, start, |s|)]
  }

  /** A string that trimming leaves alone. */
  predicate Trimmed(s: string) {
    s == [] || (!IsSpace(s[0]) && !IsSpace(s[|s| - 1]))
  }

  lemma TrimTrims(s: string)
    ensures Trimmed(Trim(s))
    ensures Trimmed(s) ==> Trim(s) == s
  {
    var start := SkipSpaces(s, 0);
    var end := SkipSpacesBack(s, start, |s|);
    if start < end {
      assert Trim(s)[0] == s[start] && Trim(s)[|Trim(s)| - 1] == s[end - 1];
    }
  }

  predicate IsBlank(s: string) {
    forall i :: 0 <= i < |s| ==> s[i] == ' ' || (9 <= s[i] as int && s[i] as int <= 13)
  }

  lemma {:induction false} SkipsBlanks(s: string, i: nat, n: nat)
    requires i <= n <= |s| && IsBlank(s[i..n]) && (n == |s| || !IsSpace(s[n]))
    ensures SkipSpaces(s, i) == n
    decreases n - i
  {
    if i < n {
      assert s[i..n][0] == s[i];
      assert s[i + 1..n] == s[i..n][1..];
      SkipsBlanks(s, i + 1, n);
    }
  }

  lemma {:induction false} SkipsBlanksBack(s: string, lo: nat, n: nat, hi: nat)
    requires lo < n <= hi <= |s| && IsBlank(s[n..hi]) && !IsSpace(s[n - 1])
    ensures SkipSpacesBack(s, lo, hi) == n
    decreases hi
  {
    if n < hi {
      assert s[n..hi][hi - 1 - n] == s[hi - 1];
      assert s[n..hi - 1] == s[n..hi][..hi - 1 - n];
      SkipsBlanksBack(s, lo, n, hi - 1);
    }
  }

  /** Trimming takes off blanks, tabs, line and page breaks at both ends, and only these. */
  lemma TrimMeaning(before: string, s: string, after: string)
    requires IsBlank(before) && IsBlank(after) && s != "" && Trimmed(s)
    ensures Trim(before + s + after) == s
  {
    var t, n, m := before + s + after, |before|, |before| + |s|;
    assert t[0..n] == before && t[m..|t|] == after && t[n] == s[0] && t[m - 1] == s[|s| - 1];
    SkipsBlanks(t, 0, n);
    SkipsBlanksBack(t, n, m, |t|);
    assert t[n..m] == s;
  }

  predicate OccursAt<T(==)>(s: seq<T>, sub: seq<T>, i: int) {
    0 <= i <= |s| - |sub| && s[i..i + |sub|] == sub
  }

  /** `std::basic_string_view::find(sub, from)`; `None` stands for `npos`. */
  function Find<T(==)>(s: seq<T>, sub: seq<T>, from: nat): (r: Option<nat>)
    ensures r.Some? ==> from <= r.value && OccursAt(s, sub, r.value)
    ensures r.Some? ==> forall i :: from <= i < r.value ==> !OccursAt(s, sub, i)
    ensures r.None? ==> forall i :: from <= i ==> !OccursAt(s, sub, i)
    decreases |s| - from
  {
    if from + |sub| > |s| then None
    else if s[from..from + |sub|] == sub then Some(from)
    else Find(s, sub, from + 1)
  }

  /** `std::basic_string_view::rfind(sub)`, scanning down from position `to - 1`. */
  function RFindBelow<T(==)>(s: seq<T>, sub: seq<T>, to: nat): (r: Option<nat>)
    ensures r.Some? ==> r.value < to && OccursAt(s, sub, r.value)
    ensures r.Some? ==> forall i :: r.value < i < to ==> !OccursAt(s, sub, i)
    ensures r.None? ==> forall i :: 0 <= i < to ==> !OccursAt(s, sub, i)
  {
    if to == 0 then None
    else if OccursAt(s, sub, to - 1) then Some(to - 1)
    else RFindBelow(s, sub, to - 1)
  }

  function RFind<T(==)>(s: seq<T>, sub: seq<T>): (r: Option<nat>)
    ensures r.Some? ==> OccursAt(s, sub, r.value)
    ensures r.Some? ==> forall i :: r.value < i ==> !OccursAt(s, sub, i)
    ensures r.None? ==> forall i :: !OccursAt(s, sub, i)
  {
    RFindBelow(s, sub, |s| + 1)
  }

  /** `find_first_of`: the first index from `from` on whose character is in `chars`, or the length. */
  function FindFirstOf(s: string, chars: string, from: nat): (r: nat)
    requires from <= |s|
    ensures from <= r <= |s|
    ensures forall i :: from <= i < r ==> s[i] !in chars
    ensures r < |s| ==> s[r] in chars
    decreases |s| - from
  {
    if from == |s| || s[from] in chars then from else FindFirstOf(s, chars, from + 1)
  }

  predicate StartsWith<T(==)>(s: seq<T>, prefix: seq<T>) {
    |s| >= |prefix| && s[..|prefix|] == prefix
  }

  predicate EndsWith<T(==)>(s: seq<T>, suffix: seq<T>) {
    |s| >= |suffix| && s[|s| - |suffix|..] == suffix
  }

  /** `split2_by`: what stands before the first `delim` and what stands after it. */
  function Split2(s: string, delim: char): (string, string) {
    match Find(s, [delim], 0)
    case Some(i) => (s[..i], s[i + 1..])
    case None => (s, "")
  }

  /** `rsplit2_by`: the same at the last `delim`. */
  function RSplit2(s: string, delim: char): (string, string) {
    match RFind(s, [delim])
    case Some(i) => (s[..i], s[i + 1..])
    case None => (s, "")
  }

  /** What `f` makes of each piece between delimiters, from position `from` on. */
  function SplitWith(f: string -> seq<string>, s: string, delims: string, from: nat): seq<string>
    requires from <= |s|
    decreases |s| - from
  {
    var end := FindFirstOf(s, delims, from);
    if end == |s| then f(s[from..end]) else f(s[from..end]) + SplitWith(f, s, delims, end + 1)
  }

  function TrimmedPiece(piece: string): seq<string> {
    if Trim(piece) == "" then [] else [Trim(piece)]
  }

  /** `split_by_any_of`: the trimmed, non-empty pieces between delimiters. */
  function SplitFrom(s: string, delims: string, from: nat): seq<string>
    requires from <= |s|
  {
    SplitWith(TrimmedPiece, s, delims, from)
  }

  /** An empty string is returned as one empty piece, any other without its empty pieces. */
  function SplitByAnyOf(s: string, delims: string): seq<string> {
    if s == "" then [""] else SplitFrom(s, delims, 0)
  }
}

/** The line readers of common/src/utils.cpp and common/src/file.cpp.

    A rule list is read twice: a loader is given every line together with its position, and the
    matcher later asks for the line at a position it stored. Both readers exist for text held in
    memory and for files that are read in chunks. */
module Lines {
  import opened Text

  /** A line as an action is given it: where it starts, and its trimmed text. */
  type Reported = (nat, string)

  predicate IsNewline(c: char) {
    c == '\r' || c == '\n'
  }

  /** Where the line that starts at `pos` ends: at the first newline character, or with the text. */
  function LineEnd(s: string, pos: nat): (r: nat)
    requires pos <= |s|
    ensures pos <= r <= |s|
    ensures forall i :: pos <= i < r ==> !IsNewline(s[i])
    ensures r < |s| ==> IsNewline(s[r])
    decreases |s| - pos
  {
    if pos == |s| || IsNewline(s[pos]) then pos else LineEnd(s, pos + 1)
  }

  /** The line that starts at `pos`, as both readers hand it out. */
  function LineAt(s: string, pos: nat): Reported {
    (pos, if pos <= |s| then Trim(s[pos..LineEnd(s, pos)]) else "")
  }

  function LineIn(s: string): nat -> Reported {
    pos => LineAt(s, pos)
  }

  /** The lines that start at these positions. */
  function LinesAt(s: string, starts: seq<nat>): seq<Reported> {
    MapAll(LineIn(s), starts)
  }

  /** Where the lines of text in memory start, from position `start` on. */
  function MemoryStarts(s: string, start: nat): seq<nat>
    requires start <= |s|
    decreases |s| - start
  {
    if start == |s| then []
    else if LineEnd(s, start) == |s| then [start]
    else [start] + MemoryStarts(s, LineEnd(s, start) + 1)
  }

  /** Where the lines of a file start, from position `start` on and behind those that are done. The unterminated last line is
      reported when its start is below the file size minus one, a difference that wraps around for an empty file. */
  function FileStartsFrom(text: string, start: nat, done: seq<nat>): seq<nat>
    requires start <= |text|
    decreases |text| - start
  {
    if LineEnd(text, start) < |text| then FileStartsFrom(text, LineEnd(text, start) + 1, done + [start])
    else if |text| == 0 || |text| - 1 > start then done + [start]
    else done
  }

  function MemoryLines(s: string): seq<Reported> {
    LinesAt(s, MemoryStarts(s, 0))
  }

  function FileLines(s: string): seq<Reported> {
    LinesAt(s, FileStartsFrom(s, 0, []))
  }

  /** One more line, with its text given. */
  lemma OneLineMore(s: string, starts: seq<nat>, start: nat, reported: seq<Reported>, line: Reported)
    requires reported == LinesAt(s, starts) && line == LineAt(s, start)
    ensures reported + [line] == LinesAt(s, starts + [start])
  {
    MapSnoc(LineIn(s), starts, start);
  }

  // ----- text in memory ---------------------------------------------------------------------

  /** The lines an action is given, in order, when it never stops the loop. */
  method ForEachLine(text: string) returns (reported: seq<Reported>)
    ensures reported == MemoryLines(text)
  {
    reported := [];
    var start: nat := 0;
    ghost var done: seq<nat> := [];
    while start != |text|
      invariant start <= |text| && reported == LinesAt(text, done)
      invariant MemoryStartsFrom(text, start, done) == MemoryStartsFrom(text, 0, [])
      decreases |text| - start
    {
      var end := LineEnd(text, start);
      var line := LineAt(text, start);
      OneLineMore(text, done, start, reported, line);
      reported := reported + [line];
      done := done + [start];
      if end == |text| {
        break;
      }
      start := end + 1;
    }
    MemoryStartsBehind(text, 0, []);
  }

  /** The starts from `start` on, collected behind those that are done. */
  function MemoryStartsFrom(text: string, start: nat, done: seq<nat>): seq<nat>
    requires start <= |text|
    decreases |text| - start
  {
    if start == |text| then done
    else if LineEnd(text, start) == |text| then done + [start]
    else MemoryStartsFrom(text, LineEnd(text, start) + 1, done + [start])
  }

  lemma {:induction false} MemoryStartsBehind(text: string, start: nat, done: seq<nat>)
    requires start <= |text|
    ensures MemoryStartsFrom(text, start, done) == done + MemoryStarts(text, start)
    decreases |text| - start
  {
    if start < |text| && LineEnd(text, start) < |text| {
      MemoryStartsBehind(text, LineEnd(text, start) + 1, done + [start]);
      Regroup(done, [start], MemoryStarts(text, LineEnd(text, start) + 1));
    }
  }

  function ReadLine(text: string, pos: nat): Option<string> {
    if pos >= |text| then None else Some(LineAt(text, pos).1)
  }

  lemma {:induction false} MemoryStartsInside(text: string, start: nat, k: nat)
    requires start <= |text| && k < |MemoryStarts(text, start)|
    ensures MemoryStarts(text, start)[k] < |text|
    decreases |text| - start
  {
    if k > 0 {
      MemoryStartsInside(text, LineEnd(text, start) + 1, k - 1);
    }
  }

  /** Every position reported for text in memory reads back as the line reported there. */
  lemma MemoryReadBack(text: string, k: nat)
    requires k < |MemoryLines(text)|
    ensures ReadLine(text, MemoryLines(text)[k].0) == Some(MemoryLines(text)[k].1)
  {
    MemoryStartsInside(text, 0, k);
  }

  // ----- files ------------------------------------------------------------------------------

  /** An open file. A read returns between one byte and as many as were asked for, and none only at
      the end: where the chunks end is left open. */
  class File {
    const content: string
    var position: nat

    constructor (content: string)
      ensures this.content == content && position == 0
    {
      this.content := content;
      position := 0;
    }

    method Read(size: nat) returns (chunk: string)
      modifies this
      ensures |chunk| == 0 || old(position) + |chunk| <= |content|
      ensures position == old(position) + |chunk|
      ensures |chunk| <= size
      ensures |chunk| == 0 <==> size == 0 || old(position) >= |content|
      ensures |chunk| > 0 ==> chunk == content[old(position)..position]
    {
      if size == 0 || position >= |content| {
        return "";
      }
      var n :| 0 < n <= size && position + n <= |content|;
      chunk := content[position..position + n];
      position := position + n;
    }
  }

  /** The variables of the file loop: the lines reported, the line collected and where it started. */
  datatype Loop = Loop(reported: seq<Reported>, line: string, lineIdx: nat)

  /** The loop after the first `at` bytes. */
  function LoopAt(text: string, at: nat): Loop
    requires at <= |text|
  {
    if at == 0 then Loop([], "", 0)
    else
      var s, c := LoopAt(text, at - 1), text[at - 1];
      if IsNewline(c) then Loop(s.reported + [(s.lineIdx, Trim(s.line))], "", at) else s.(line := s.line + [c])
  }

  /** The line collected is what stands in front, behind the last newline. */
  lemma {:induction false} LineSoFar(text: string, at: nat)
    requires at <= |text|
    ensures var s := LoopAt(text, at);
            s.lineIdx <= at && s.line == text[s.lineIdx..at] && forall i :: s.lineIdx <= i < at ==> !IsNewline(text[i])
  {
    if at > 0 {
      LineSoFar(text, at - 1);
      OneMore(text, LoopAt(text, at - 1).lineIdx, at - 1);
    }
  }

  lemma OneMore(text: string, from: nat, at: nat)
    requires from <= at < |text|
    ensures text[from..at] + [text[at]] == text[from..at + 1]
  {
  }

  lemma LineEndsAt(text: string, from: nat, at: nat)
    requires from <= at <= |text| && forall i :: from <= i < at ==> !IsNewline(text[i])
    requires at == |text| || IsNewline(text[at])
    ensures LineEnd(text, from) == at
  {
  }

  /** Where the line stands that is collected after the first `at` bytes. */
  function LineIdxAt(text: string, at: nat): (r: nat)
    requires at <= |text|
    ensures r <= at && forall i :: r <= i < at ==> !IsNewline(text[i])
  {
    if at == 0 then 0 else if IsNewline(text[at - 1]) then at else LineIdxAt(text, at - 1)
  }

  lemma {:induction false} LoopLineIdx(text: string, at: nat)
    requires at <= |text|
    ensures LoopAt(text, at).lineIdx == LineIdxAt(text, at)
  {
    if at > 0 {
      LoopLineIdx(text, at - 1);
    }
  }

  /** Where the lines start that were reported by then. */
  function StartsAt(text: string, at: nat): seq<nat>
    requires at <= |text|
  {
    if at == 0 then []
    else if IsNewline(text[at - 1]) then StartsAt(text, at - 1) + [LineIdxAt(text, at - 1)]
    else StartsAt(text, at - 1)
  }

  /** The starts found so far and the ones of the rest. */
  function StartsNow(text: string): nat -> seq<nat> {
    (at: nat) => if at <= |text| then FileStartsFrom(text, LineIdxAt(text, at), StartsAt(text, at)) else []
  }

  lemma StartsMove(text: string, at: nat)
    requires at < |text|
    ensures StartsNow(text)(at + 1) == StartsNow(text)(at)
  {
    if IsNewline(text[at]) {
      LineEndsAt(text, LineIdxAt(text, at), at);
      NextStart(text, LineIdxAt(text, at), at, StartsAt(text, at));
    }
  }

  lemma {:induction false} StaysTheSame(f: nat -> seq<nat>, n: nat)
    requires forall i :: 0 <= i < n ==> f(i + 1) == f(i)
    ensures f(n) == f(0)
  {
    if n > 0 {
      StaysTheSame(f, n - 1);
      assert f((n - 1) + 1) == f(n - 1);
    }
  }

  /** They are always all the starts. */
  lemma StartsSoFar(text: string, at: nat)
    requires at <= |text|
    ensures LoopAt(text, at).lineIdx <= |text|
    ensures FileStartsFrom(text, LoopAt(text, at).lineIdx, StartsAt(text, at)) == FileStartsFrom(text, 0, [])
  {
    forall i | 0 <= i < at
      ensures StartsNow(text)(i + 1) == StartsNow(text)(i)
    {
      StartsMove(text, i);
    }
    StaysTheSame(StartsNow(text), at);
    LoopLineIdx(text, at);
  }

  lemma NextStart(text: string, from: nat, end: nat, done: seq<nat>)
    requires from <= end < |text| && LineEnd(text, from) == end
    ensures FileStartsFrom(text, from, done) == FileStartsFrom(text, end + 1, done + [from])
  {
  }

  lemma {:induction false} LinesSoFar(text: string, at: nat)
    requires at <= |text|
    ensures LoopAt(text, at).reported == LinesAt(text, StartsAt(text, at))
  {
    if at > 0 {
      LinesSoFar(text, at - 1);
      if IsNewline(text[at - 1]) {
        var s := LoopAt(text, at - 1);
        CollectedLine(text, at - 1);
        LoopLineIdx(text, at - 1);
        OneLineMore(text, StartsAt(text, at - 1), s.lineIdx, s.reported, (s.lineIdx, Trim(s.line)));
      }
    }
  }

  /** The line that ends at `at` is the one collected. */
  lemma CollectedLine(text: string, at: nat)
    requires at <= |text| && (at == |text| || IsNewline(text[at]))
    ensures var s := LoopAt(text, at); s.lineIdx <= |text| && (s.lineIdx, Trim(s.line)) == LineAt(text, s.lineIdx)
  {
    var s := LoopAt(text, at);
    LineSoFar(text, at);
    LineEndsAt(text, s.lineIdx, at);
  }

  lemma LastStart(text: string)
    ensures var from, starts := LoopAt(text, |text|).lineIdx, StartsAt(text, |text|);
            FileStartsFrom(text, 0, []) == if |text| == 0 || |text| - 1 > from then starts + [from] else starts
  {
    var from, starts := LoopAt(text, |text|).lineIdx, StartsAt(text, |text|);
    LineSoFar(text, |text|);
    LineEndsAt(text, from, |text|);
    StartsSoFar(text, |text|);
  }

  lemma LastLine(text: string)
    ensures var s := LoopAt(text, |text|);
            FileLines(text) ==
            if |text| == 0 || |text| - 1 > s.lineIdx then s.reported + [(s.lineIdx, Trim(s.line))] else s.reported
  {
    LastStart(text);
    LinesSoFar(text, |text|);
    CollectedLine(text, |text|);
    var s := LoopAt(text, |text|);
    OneLineMore(text, StartsAt(text, |text|), s.lineIdx, s.reported, (s.lineIdx, Trim(s.line)));
  }

  /** The loop over the bytes of one chunk, which was read at `fileIdx`. */
  method CollectChunk(ghost text: string, chunk: string, fileIdx: nat,
                      reported0: seq<Reported>, line0: string, lineIdx0: nat)
    returns (reported: seq<Reported>, line: string, lineIdx: nat)
    requires fileIdx + |chunk| <= |text| && chunk == text[fileIdx..fileIdx + |chunk|]
    requires Loop(reported0, line0, lineIdx0) == LoopAt(text, fileIdx)
    ensures Loop(reported, line, lineIdx) == LoopAt(text, fileIdx + |chunk|)
  {
    reported, line, lineIdx := reported0, line0, lineIdx0;
    var i := 0;
    while i < |chunk|
      invariant 0 <= i <= |chunk|
      invariant Loop(reported, line, lineIdx) == LoopAt(text, fileIdx + i)
    {
      assert chunk[i] == text[fileIdx + i];
      if !IsNewline(chunk[i]) {
        line := line + [chunk[i]];
      } else {
        reported := reported + [(lineIdx, Trim(line))];
        line := "";
        lineIdx := fileIdx + i + 1;
      }
      i := i + 1;
    }
  }

  const MAX_CHUNK_SIZE := 64 * 1024

  method ForEachFileLine(f: File) returns (reported: seq<Reported>)
    requires f.position == 0
    modifies f
    ensures reported == FileLines(f.content)
  {
    var text := f.content;
    var chunkSize := if MAX_CHUNK_SIZE < |text| then MAX_CHUNK_SIZE else |text|;
    reported := [];
    var line := "";
    var fileIdx: nat, lineIdx: nat := 0, 0;
    var chunk := f.Read(chunkSize);
    while 0 < |chunk|
      invariant f.position == fileIdx + |chunk|
      invariant fileIdx + |chunk| <= |text|
      invariant chunk == text[fileIdx..fileIdx + |chunk|]
      invariant |chunk| == 0 ==> fileIdx == |text|
      invariant Loop(reported, line, lineIdx) == LoopAt(text, fileIdx)
      decreases |text| - fileIdx
    {
      reported, line, lineIdx := CollectChunk(text, chunk, fileIdx, reported, line, lineIdx);
      fileIdx := fileIdx + |chunk|;
      chunk := f.Read(chunkSize);
    }
    LastLine(text);
    if |text| == 0 || |text| - 1 > lineIdx {
      reported := reported + [(lineIdx, Trim(line))];
    }
  }

  function ReadFileLineSpec(text: string, pos: nat): string {
    if pos >= |text| then "" else LineAt(text, pos).1
  }

  /** What the read loop knows when it has scanned up to `at` without a newline. */
  ghost predicate Scanned(text: string, pos: nat, at: nat, line: string) {
    if pos >= |text| then line == ""
    else pos <= at <= |text| && line == text[pos..at] && forall i :: pos <= i < at ==> !IsNewline(text[i])
  }

  method NewlineIn(chunk: string) returns (i: nat)
    ensures i <= |chunk|
    ensures forall j :: 0 <= j < i ==> !IsNewline(chunk[j])
    ensures i < |chunk| ==> IsNewline(chunk[i])
  {
    i := 0;
    while i < |chunk| && !IsNewline(chunk[i])
      invariant i <= |chunk|
      invariant forall j :: 0 <= j < i ==> !IsNewline(chunk[j])
    {
      i := i + 1;
    }
  }

  lemma ScannedMore(text: string, pos: nat, at: nat, line: string, chunk: string, i: nat)
    requires Scanned(text, pos, at, line)
    requires pos < |text| && i <= |chunk| && at + |chunk| <= |text| && chunk == text[at..at + |chunk|]
    requires forall j :: 0 <= j < i ==> !IsNewline(chunk[j])
    requires i < |chunk| ==> IsNewline(chunk[i])
    ensures Scanned(text, pos, at + i, line + chunk[..i])
    ensures i < |chunk| ==> LineEnd(text, pos) == at + i
  {
    assert forall j :: at <= j < at + i ==> text[j] == chunk[j - at];
    if i < |chunk| {
      assert chunk[i] == text[at + i];
    }
  }

  lemma ScannedLine(text: string, pos: nat, at: nat, line: string)
    requires Scanned(text, pos, at, line)
    requires pos < |text| ==> at == LineEnd(text, pos)
    ensures Trim(line) == ReadFileLineSpec(text, pos)
  {
  }

  const READ_CHUNK_SIZE := 4 * 1024

  method ReadFileLine(f: File, pos: nat) returns (line: string)
    modifies f
    ensures line == ReadFileLineSpec(f.content, pos)
  {
    var text := f.content;
    f.position := pos;
    line := "";
    var at := pos;
    var chunk := f.Read(READ_CHUNK_SIZE);
    while 0 < |chunk|
      invariant f.position == at + |chunk|
      invariant |chunk| > 0 ==> pos < |text| && at + |chunk| <= |text| && chunk == text[at..at + |chunk|]
      invariant |chunk| == 0 ==> at >= |text|
      invariant Scanned(text, pos, at, line)
      decreases |text| - at
    {
      var i := NewlineIn(chunk);
      ScannedMore(text, pos, at, line, chunk, i);
      line := line + chunk[..i];
      if i < |chunk| {
        at := at + i;
        break;
      }
      at := at + |chunk|;
      chunk := f.Read(READ_CHUNK_SIZE);
    }
    ScannedLine(text, pos, at, line);
    line := Trim(line);
  }

  ghost predicate Inside(starts: seq<nat>, n: nat) {
    forall i :: 0 <= i < |starts| ==> starts[i] < n
  }

  lemma {:induction false} FileStartsInside(text: string, start: nat, done: seq<nat>)
    requires start <= |text| && text != "" && Inside(done, |text|)
    ensures Inside(FileStartsFrom(text, start, done), |text|)
    decreases |text| - start
  {
    if LineEnd(text, start) < |text| {
      FileStartsInside(text, LineEnd(text, start) + 1, done + [start]);
    }
  }

  /** Every position reported for a file reads back as the line reported there. */
  lemma FileReadBack(text: string, k: nat)
    requires k < |FileLines(text)|
    ensures ReadFileLineSpec(text, FileLines(text)[k].0) == FileLines(text)[k].1
  {
    if text == "" {
      assert text[0..0] == "";
    } else {
      FileStartsInside(text, 0, []);
    }
  }

  // ----- where the two readers differ -------------------------------------------------------

  /** The text ends in an unterminated line of one character. */
  predicate LastLineIsOneChar(text: string) {
    |text| > 0 && !IsNewline(text[|text| - 1]) && (|text| == 1 || IsNewline(text[|text| - 2]))
  }

  lemma StartsAgreeOnLastLine(text: string, start: nat, done: seq<nat>)
    requires start < |text| == LineEnd(text, start)
    requires start == 0 || IsNewline(text[start - 1])
    ensures FileStartsFrom(text, start, done) == MemoryStartsFrom(text, start, done) <==> !LastLineIsOneChar(text)
  {
    assert !IsNewline(text[|text| - 1]);
    assert |done + [start]| == |done| + 1;
    if start < |text| - 1 {
      assert !IsNewline(text[|text| - 2]);
    }
  }

  lemma {:induction false} StartsAgreeFrom(text: string, start: nat, done: seq<nat>)
    requires text != "" && start <= |text|
    requires start == 0 || IsNewline(text[start - 1])
    ensures FileStartsFrom(text, start, done) == MemoryStartsFrom(text, start, done) <==>
            !LastLineIsOneChar(text) || start == |text|
    decreases |text| - start
  {
    if start < |text| {
      var end := LineEnd(text, start);
      if end == |text| {
        StartsAgreeOnLastLine(text, start, done);
      } else {
        StartsAgreeFrom(text, end + 1, done + [start]);
      }
    }
  }

  /** Lines are the same exactly when they start at the same positions. */
  lemma SameLines(s: string, a: seq<nat>, b: seq<nat>)
    ensures LinesAt(s, a) == LinesAt(s, b) <==> a == b
  {
    if LinesAt(s, a) == LinesAt(s, b) {
      forall k | 0 <= k < |a|
        ensures a[k] == b[k]
      {
        assert LinesAt(s, a)[k] == LinesAt(s, b)[k];
      }
    }
  }

  /** A rule list is split the same way from memory and from a file exactly when it is not empty and
      does not end in an unterminated line of one character, which the file reader never reports. */
  lemma ReadersAgree(text: string)
    ensures FileLines(text) == MemoryLines(text) <==> text != "" && !LastLineIsOneChar(text)
  {
    SameLines(text, FileStartsFrom(text, 0, []), MemoryStarts(text, 0));
    if text != "" {
      StartsAgreeFrom(text, 0, []);
      MemoryStartsBehind(text, 0, []);
        assert [] + MemoryStarts(text, 0) == MemoryStarts(text, 0);
    }
  }

  lemma {:induction false} LastStartIsLost(text: string, start: nat, done: seq<nat>)
    requires LastLineIsOneChar(text) && start < |text| && (start == 0 || IsNewline(text[start - 1]))
    ensures MemoryStartsFrom(text, start, done) == FileStartsFrom(text, start, done) + [|text| - 1]
    decreases |text| - start
  {
    var end := LineEnd(text, start);
    if end < |text| {
      assert end + 1 < |text|;
      LastStartIsLost(text, end + 1, done + [start]);
    } else {
      assert start == |text| - 1;
    }
  }

  /** Whatever stands before it, such a line is reported from memory and lost from a file; all others are reported by
      both. */
  lemma LastLineIsLost(before: string, ending: char, c: char)
    requires IsNewline(ending) && !IsNewline(c)
    ensures var text := before + [ending, c]; MemoryLines(text) == FileLines(text) + [LineAt(text, |text| - 1)]
  {
    var text := before + [ending, c];
    var last: nat := |text| - 1;
    LastStartIsLost(text, 0, []);
    MemoryStartsBehind(text, 0, []);
    assert [] + MemoryStarts(text, 0) == MemoryStarts(text, 0);
    MapSnoc(LineIn(text), FileStartsFrom(text, 0, []), last);
  }

  /** An empty file has a line, an empty text in memory none. */
  lemma EmptyTextDiffers()
    ensures MemoryLines("") == [] && FileLines("") == [(0, "")]
  {
    assert FileStartsFrom("", 0, []) == [0];
    assert LineAt("", 0) == (0, "");
    assert FileLines("") == [LineAt("", 0)];
  }

  // ----- the lines of a text ----------------------------------------------------------------------------------

  function Plus(k: nat): nat -> nat {
    (i: nat) => k + i
  }

  /** A line of a text that `k` characters were put in front of. */
  function Later(k: nat): Reported -> Reported {
    (r: Reported) => (k + r.0, r.1)
  }

  lemma {:induction false} EndBehind(t: string, k: nat, s: string, i: nat)
    requires k <= |t| && t[k..] == s && i <= |s|
    ensures |t| == k + |s| && LineEnd(t, k + i) == k + LineEnd(s, i)
    decreases |s| - i
  {
    if i < |s| {
      assert t[k + i] == t[k..][i];
      EndBehind(t, k, s, i + 1);
    }
  }

  lemma {:induction false} StartsBehindFrom(t: string, k: nat, s: string, i: nat, done: seq<nat>)
    requires k <= |t| && t[k..] == s && i <= |s|
    ensures |t| == k + |s|
    ensures MemoryStartsFrom(t, k + i, MapAll(Plus(k), done)) == MapAll(Plus(k), MemoryStartsFrom(s, i, done))
    decreases |s| - i
  {
    EndBehind(t, k, s, i);
    MapSnoc(Plus(k), done, i);
    if i < |s| && LineEnd(s, i) < |s| {
      StartsBehindFrom(t, k, s, LineEnd(s, i) + 1, done + [i]);
    }
  }

  lemma StartsBehind(t: string, k: nat, s: string)
    requires k <= |t| && t[k..] == s
    ensures MemoryStarts(t, k) == MapAll(Plus(k), MemoryStarts(s, 0))
  {
    StartsBehindFrom(t, k, s, 0, []);
    MemoryStartsBehind(t, k, []);
    MemoryStartsBehind(s, 0, []);
    assert [] + MemoryStarts(t, k) == MemoryStarts(t, k) && [] + MemoryStarts(s, 0) == MemoryStarts(s, 0);
    assert MapAll(Plus(k), []) == [];
  }

  lemma LineFrom(s: string, i: nat, line: string)
    requires i <= |s| && line == s[i..LineEnd(s, i)]
    ensures LineAt(s, i) == (i, Trim(line))
  {
  }

  lemma SliceBehind(t: string, k: nat, s: string, i: nat, n: nat)
    requires k <= |t| && t[k..] == s && i <= n <= |s|
    ensures k + n <= |t| && t[k + i..k + n] == s[i..n]
  {
    forall j | 0 <= j < n - i
      ensures t[k + i..k + n][j] == s[i..n][j]
    {
      assert t[k..][i + j] == s[i + j];
    }
  }

  lemma LineBehind(t: string, k: nat, s: string, i: nat)
    requires k <= |t| && t[k..] == s && i <= |s|
    ensures LineAt(t, k + i).0 == k + i && LineAt(t, k + i).1 == LineAt(s, i).1
  {
    EndBehind(t, k, s, i);
    SliceBehind(t, k, s, i, LineEnd(s, i));
    LineFrom(t, k + i, s[i..LineEnd(s, i)]);
    LineFrom(s, i, s[i..LineEnd(s, i)]);
  }

  lemma {:induction false} StartsInside(s: string, i: nat, j: nat)
    requires i <= |s| && j < |MemoryStarts(s, i)|
    ensures MemoryStarts(s, i)[j] <= |s|
    decreases |s| - i
  {
    if j > 0 {
      StartsInside(s, LineEnd(s, i) + 1, j - 1);
    }
  }

  lemma LineLater(t: string, k: nat, s: string, i: nat)
    requires k <= |t| && t[k..] == s && i <= |s|
    ensures LineIn(t)(Plus(k)(i)) == Later(k)(LineIn(s)(i))
  {
    LineBehind(t, k, s, i);
  }

  lemma EachLineBehind(t: string, k: nat, s: string, starts: seq<nat>)
    requires k <= |t| && t[k..] == s && forall j :: 0 <= j < |starts| ==> starts[j] <= |s|
    ensures LinesAt(t, MapAll(Plus(k), starts)) == MapAll(Later(k), LinesAt(s, starts))
  {
    forall j | 0 <= j < |starts|
      ensures LineIn(t)(Plus(k)(starts[j])) == Later(k)(LineIn(s)(starts[j]))
    {
      LineLater(t, k, s, starts[j]);
    }
    MapTwice(LineIn(t), Plus(k), LineIn(s), Later(k), starts);
  }

  lemma LinesBehind(t: string, k: nat, s: string)
    requires k <= |t| && t[k..] == s
    ensures LinesAt(t, MemoryStarts(t, k)) == MapAll(Later(k), MemoryLines(s))
  {
    StartsBehind(t, k, s);
    forall j | 0 <= j < |MemoryStarts(s, 0)|
      ensures MemoryStarts(s, 0)[j] <= |s|
    {
      StartsInside(s, 0, j);
    }
    EachLineBehind(t, k, s, MemoryStarts(s, 0));
  }

  lemma MapTwice(f: nat -> Reported, g: nat -> nat, f': nat -> Reported, g': Reported -> Reported, xs: seq<nat>)
    requires forall j :: 0 <= j < |xs| ==> f(g(xs[j])) == g'(f'(xs[j]))
    ensures MapAll(f, MapAll(g, xs)) == MapAll(g', MapAll(f', xs))
  {
  }

  lemma EndsAtBreak(t: string, n: nat, i: nat)
    requires i <= n < |t| && (t[n] == '\r' || t[n] == '\n') && forall j :: i <= j < n ==> t[j] != '\r' && t[j] != '\n'
    ensures LineEnd(t, i) == n
  {
  }

  /** A text is its first line, up to a carriage return or a line feed, and the lines of what follows. */
  lemma LinesOfText(a: string, ending: char, b: string)
    requires '\r' !in a && '\n' !in a && (ending == '\r' || ending == '\n')
    ensures MemoryLines(a + [ending] + b) == [(0, Trim(a))] + MapAll(Later(|a| + 1), MemoryLines(b))
  {
    var t, k := a + [ending] + b, |a| + 1;
    FirstBreak(a, ending, b);
    LinesBehind(t, k, b);
    LineFrom(t, 0, a);
    FirstLine(t, MemoryStarts(t, k));
  }

  lemma FirstBreak(a: string, ending: char, b: string)
    requires '\r' !in a && '\n' !in a && (ending == '\r' || ending == '\n')
    ensures var t := a + [ending] + b;
            && LineEnd(t, 0) == |a| < |t| && t[0..|a|] == a && t[|a| + 1..] == b
            && MemoryStarts(t, 0) == [0] + MemoryStarts(t, |a| + 1)
  {
    var t := a + [ending] + b;
    assert t[|a|] == ending && forall j :: 0 <= j < |a| ==> t[j] == a[j];
    EndsAtBreak(t, |a|, 0);
  }

  lemma FirstLine(t: string, starts: seq<nat>)
    ensures LinesAt(t, [0] + starts) == [LineAt(t, 0)] + LinesAt(t, starts)
  {
    MapCons(LineIn(t), 0, starts);
  }

  /** A text without line endings is one line, or none. */
  lemma OneLine(a: string)
    requires '\r' !in a && '\n' !in a
    ensures MemoryLines(a) == if a == "" then [] else [(0, Trim(a))]
  {
    if a != "" {
      NoBreak(a, 0);
      assert MemoryStarts(a, 0) == [0];
      assert a[0..|a|] == a;
      assert LinesAt(a, [0]) == [LineAt(a, 0)];
    }
  }

  lemma NoBreak(a: string, i: nat)
    requires '\r' !in a && '\n' !in a && i <= |a|
    ensures LineEnd(a, i) == |a|
  {
  }
}

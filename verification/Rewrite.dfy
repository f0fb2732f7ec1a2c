// render_workflows.py: replacing the `on:` section of a workflow between two sentinels,
// as a lens from workflow texts to rendered blocks.
module Rewrite {
  import opened Text

  datatype Markers = Markers(begin: string, end: string)

  const HEAD: string := "# >>> RENDERED-ON-"
  const BEGIN_TAIL: string := ("BEGIN (ci/render_" + "workflows.py) -- do") + (" not edit by hand" + " <<<\n")
  const END_TAIL: string := "END <<<\n"

  /** `BEGIN_MARKER` and `END_MARKER`. */
  const WORKFLOW: Markers := Markers(HEAD + BEGIN_TAIL, HEAD + END_TAIL)

  /** What the proofs use of the sentinels: each holds one `#`, at its start, and neither
      starts the other. */
  predicate Distinctive(m: Markers) {
    && StartsOnlyWithHash(m.begin) && StartsOnlyWithHash(m.end)
    && exists i :: 0 <= i < |m.begin| && i < |m.end| && m.begin[i] != m.end[i]
  }

  predicate StartsOnlyWithHash(s: string) {
    s != [] && s[0] == '#' && forall i :: 0 < i < |s| ==> s[i] != '#'
  }

  predicate NoHash(s: string) { forall i :: 0 <= i < |s| ==> s[i] != '#' }

  lemma WorkflowMarkersAreDistinctive()
    ensures Distinctive(WORKFLOW)
  {
    assert |HEAD| == 18 && NoHash(HEAD[1..]);
    assert NoHash("BEGIN (ci/render_") && NoHash("workflows.py) -- do");
    assert NoHash(" not edit by hand") && NoHash(" <<<\n") && NoHash(END_TAIL);
    assert NoHash(BEGIN_TAIL);
    assert BEGIN_TAIL[0] == 'B' && END_TAIL[0] == 'E';
    assert WORKFLOW.begin[18] != WORKFLOW.end[18];
    AfterHead(BEGIN_TAIL);
    AfterHead(END_TAIL);
  }

  lemma AfterHead(tail: string)
    requires NoHash(tail) && NoHash(HEAD[1..])
    ensures StartsOnlyWithHash(HEAD + tail)
  {
    var s := HEAD + tail;
    assert s[0] == '#';
    forall i | 0 < i < |s|
      ensures s[i] != '#'
    {
      if i < |HEAD| {
        assert s[i] == HEAD[1..][i - 1];
      } else {
        assert s[i] == tail[i - |HEAD|];
      }
    }
  }

  // ----- text primitives ------------------------------------------------------

  function Find(s: string, pattern: string): int { FindFrom(s, pattern, 0) }

  predicate Has(s: string, pattern: string) { Find(s, pattern) >= 0 }

  /** The line boundaries of `str.splitlines`. */
  predicate IsBreak(c: char) {
    var n := c as int;
    0xA <= n <= 0xD || 0x1C <= n <= 0x1E || n == 0x85 || n == 0x2028 || n == 0x2029
  }

  /** Length of the first line, its boundary included. */
  function LineLength(s: string): (n: nat)
    requires s != []
    ensures 0 < n <= |s|
  {
    if s[0] == '\r' && |s| > 1 && s[1] == '\n' then 2
    else if IsBreak(s[0]) || |s| == 1 then 1
    else 1 + LineLength(s[1..])
  }

  /** `str.splitlines(keepends=True)`. */
  function SplitLines(s: string): seq<string>
    decreases |s|
  {
    if s == [] then [] else [s[..LineLength(s)]] + SplitLines(s[LineLength(s)..])
  }

  lemma {:induction false} LinesFlatten(s: string)
    ensures Flatten(SplitLines(s)) == s
    decreases |s|
  {
    if s != [] {
      var n := LineLength(s);
      LinesFlatten(s[n..]);
      assert SplitLines(s)[1..] == SplitLines(s[n..]);
      assert s[..n] + s[n..] == s;
    }
  }

  /** `rstrip("\r\n")`. */
  function StripEol(s: string): string {
    if s != [] && (s[|s| - 1] == '\r' || s[|s| - 1] == '\n') then StripEol(s[..|s| - 1]) else s
  }

  // ----- the rewriter ---------------------------------------------------------

  datatype Place = Found(on: nat, jobs: nat) | Missing | JobsFirst

  /** The first line from `i` on that is the given key, or the number of lines. */
  function FirstLine(lines: seq<string>, key: string, i: nat): (r: nat)
    requires i <= |lines|
    ensures i <= r <= |lines|
    decreases |lines| - i
  {
    if i == |lines| || StripEol(lines[i]) == key then i else FirstLine(lines, key, i + 1)
  }

  function Locate(lines: seq<string>): Place {
    var on, jobs := FirstLine(lines, ON, 0), FirstLine(lines, JOBS, 0);
    if jobs < |lines| && on < jobs then Found(on, jobs) else Missing
  }

  const ON: string := "on:"
  const JOBS: string := "jobs:"

  lemma {:induction false} FirstLineIs(lines: seq<string>, key: string, i: nat)
    requires i <= |lines|
    ensures var r := FirstLine(lines, key, i);
            (forall j :: i <= j < r ==> StripEol(lines[j]) != key) && (r < |lines| ==> StripEol(lines[r]) == key)
    decreases |lines| - i
  {
    if i < |lines| && StripEol(lines[i]) != key { FirstLineIs(lines, key, i + 1); }
  }

  /** The loop of `_find_on_and_jobs`. Its second error cannot happen: the loop stops at the
      first `jobs:` line, so an `on:` line after it is never seen. */
  method FindOnAndJobs(lines: seq<string>) returns (r: Place)
    ensures r == Locate(lines) && r != JobsFirst
  {
    var onStart, jobsStart := -1, -1;
    FirstLineIs(lines, ON, 0);
    FirstLineIs(lines, JOBS, 0);
    var i := 0;
    while i < |lines|
      invariant 0 <= i <= |lines| && jobsStart == -1
      invariant forall j :: 0 <= j < i ==> StripEol(lines[j]) != JOBS
      invariant -1 <= onStart < i
      invariant forall j :: 0 <= j < (if onStart == -1 then i else onStart) ==> StripEol(lines[j]) != ON
      invariant onStart >= 0 ==> StripEol(lines[onStart]) == ON
    {
      var stripped := StripEol(lines[i]);
      if onStart == -1 && stripped == ON {
        onStart := i;
      }
      if stripped == JOBS {
        jobsStart := i;
        break;
      }
      i := i + 1;
    }
    assert ON != JOBS by { assert |ON| == 3 && |JOBS| == 5; }
    if onStart == -1 || jobsStart == -1 {
      return Missing;
    }
    if jobsStart < onStart {
      return JobsFirst;
    }
    return Found(onStart, jobsStart);
  }

  datatype Result = Ok(text: string) | Error(place: Place)

  /** The parts of a text that `rewrite` keeps: before and after what it replaces. */
  datatype Frame = Frame(pre: string, post: string) | NoFrame

  /** Between the first occurrences of the sentinels. */
  function SentinelFrame(m: Markers, text: string): Frame
    requires Has(text, m.begin) && Has(text, m.end)
  {
    Frame(text[..Find(text, m.begin)], text[Find(text, m.end) + |m.end|..])
  }

  /** From the first `on:` line up to the first `jobs:` line. */
  function LinesFrame(text: string): Frame {
    var lines := SplitLines(text);
    match Locate(lines)
    case Found(on, jobs) => Frame(Flatten(lines[..on]), ['\n'] + Flatten(lines[jobs..]))
    case Missing => NoFrame
    case JobsFirst => NoFrame
  }

  function FrameOf(m: Markers, text: string): Frame {
    if Has(text, m.begin) && Has(text, m.end) then SentinelFrame(m, text) else LinesFrame(text)
  }

  function Marked(m: Markers, pre: string, block: string, post: string): string {
    pre + m.begin + block + m.end + post
  }

  function Rewritten(m: Markers, text: string, block: string): Result {
    match FrameOf(m, text)
    case Frame(pre, post) => Ok(Marked(m, pre, block, post))
    case NoFrame => Error(Missing)
  }

  /** `rewrite`. */
  method RewriteOn(text: string, block: string) returns (r: Result)
    ensures r == Rewritten(WORKFLOW, text, block)
  {
    var m := WORKFLOW;
    if Has(text, m.begin) && Has(text, m.end) {
      var bi := Find(text, m.begin);
      var ei := Find(text, m.end) + |m.end|;
      return Ok(text[..bi] + m.begin + block + m.end + text[ei..]);
    }
    var lines := SplitLines(text);
    var place := FindOnAndJobs(lines);
    if !place.Found? {
      return Error(place);
    }
    var before := Flatten(lines[..place.on]);
    var after := Flatten(lines[place.jobs..]);
    return Ok(before + m.begin + block + m.end + ['\n'] + after);
  }

  // ----- occurrences ----------------------------------------------------------

  /** An occurrence with nothing before it is the one found. */
  lemma FoundAt(s: string, pattern: string, k: nat)
    requires OccursAt(s, pattern, k) && forall j :: 0 <= j < k ==> !OccursAt(s, pattern, j)
    ensures Find(s, pattern) == k
  {
    FindFromIs(s, pattern, 0);
  }

  predicate Free(s: string, pattern: string) { !Has(s, pattern) }

  lemma FreeIs(s: string, pattern: string)
    ensures Free(s, pattern) <==> forall k :: 0 <= k ==> !OccursAt(s, pattern, k)
  {
    FindFromIs(s, pattern, 0);
  }

  /** An occurrence in `a + b` lies in `a`, starts in `b`, or straddles; it cannot straddle
      when `b` starts with `#` and the pattern has its only `#` at the start. */
  lemma NoStraddle(a: string, b: string, pattern: string, k: nat)
    requires StartsOnlyWithHash(pattern) && b != [] && b[0] == '#'
    requires OccursAt(a + b, pattern, k) && k < |a|
    ensures OccursAt(a, pattern, k)
  {
    var s := a + b;
    var t := s[k..k + |pattern|];
    assert forall j :: 0 <= j < |pattern| ==> pattern[j] == t[j];
    assert forall j :: 0 <= j < |t| ==> t[j] == s[k + j];
    var edge := |a| - k;
    assert s[k + edge] == '#';
    assert edge >= |pattern|;
    assert a[k..k + |pattern|] == t;
  }

  lemma OccursInFront(a: string, b: string, pattern: string, k: nat)
    requires OccursAt(a, pattern, k)
    ensures OccursAt(a + b, pattern, k)
  {
    assert (a + b)[k..k + |pattern|] == a[k..k + |pattern|];
  }

  /** Where a marker is first found in `a` followed by a text that starts with `#`. */
  lemma FindInFront(a: string, b: string, pattern: string)
    requires StartsOnlyWithHash(pattern) && b != [] && b[0] == '#'
    ensures Has(a, pattern) ==> Find(a + b, pattern) == Find(a, pattern)
    ensures Free(a, pattern) && pattern <= b ==> Find(a + b, pattern) == |a|
    ensures Free(a, pattern) && Find(a + b, pattern) >= 0 ==> Find(a + b, pattern) >= |a|
  {
    FindFromIs(a, pattern, 0);
    FindFromIs(a + b, pattern, 0);
    FreeIs(a, pattern);
    if Has(a, pattern) {
      OccursInFront(a, b, pattern, Find(a, pattern));
    }
    var f := Find(a + b, pattern);
    if 0 <= f < |a| {
      NoStraddle(a, b, pattern, f);
    }
    if pattern <= b {
      assert (a + b)[|a|..|a| + |pattern|] == b[..|pattern|] == pattern;
      assert OccursAt(a + b, pattern, |a|);
    }
  }

  // ----- the lens laws --------------------------------------------------------

  lemma ShiftedOccurrence(a: string, b: string, pattern: string, f: nat)
    requires Find(b, pattern) == f
    ensures OccursAt(a + b, pattern, |a| + f)
  {
    FindFromIs(b, pattern, 0);
    assert (a + b)[|a| + f..|a| + f + |pattern|] == b[f..f + |pattern|];
  }

  /** The end marker cannot start inside the begin marker. */
  lemma EndAfterBegin(m: Markers, rest: string)
    requires Distinctive(m) && Has(rest, m.end)
    ensures Find(m.begin + rest, m.end) == |m.begin| + Find(rest, m.end)
  {
    var s := m.begin + rest;
    var f := Find(rest, m.end);
    ShiftedOccurrence(m.begin, rest, m.end, f);
    forall k | 0 <= k < |m.begin| + f
      ensures !OccursAt(s, m.end, k)
    {
      if k < |m.begin| {
        NotInsideBegin(m, rest, k);
      } else {
        NotBefore(m, rest, k);
      }
    }
    FoundAt(s, m.end, |m.begin| + f);
  }

  lemma NotInsideBegin(m: Markers, rest: string, k: nat)
    requires Distinctive(m) && k < |m.begin|
    ensures !OccursAt(m.begin + rest, m.end, k)
  {
    var s := m.begin + rest;
    if k + |m.end| <= |s| {
      var t := s[k..k + |m.end|];
      assert t[0] == s[k];
      var i :| 0 <= i < |m.begin| && i < |m.end| && m.begin[i] != m.end[i];
      assert t[i] == s[k + i];
      assert s[i] == m.begin[i];
    }
  }

  lemma NotBefore(m: Markers, rest: string, k: nat)
    requires |m.begin| <= k < |m.begin| + Find(rest, m.end)
    ensures !OccursAt(m.begin + rest, m.end, k)
  {
    hide FindFrom;
    FindFromIs(rest, m.end, 0);
    var s, j := m.begin + rest, k - |m.begin|;
    assert !OccursAt(rest, m.end, j);
    if k + |m.end| <= |s| {
      assert s[k..k + |m.end|] == rest[j..j + |m.end|];
    }
  }

  /** A marker found past a text free of it is found where the rest has it. */
  lemma ShiftFind(a: string, b: string, pattern: string)
    requires StartsOnlyWithHash(pattern) && b != [] && b[0] == '#' && Free(a, pattern) && Has(b, pattern)
    ensures Find(a + b, pattern) == |a| + Find(b, pattern)
  {
    hide FindFrom, StartsOnlyWithHash;
    var s := a + b;
    FindFromIs(b, pattern, 0);
    FreeIs(a, pattern);
    var f := Find(b, pattern);
    assert s[|a| + f..|a| + f + |pattern|] == b[f..f + |pattern|];
    forall k | 0 <= k < |a| + f
      ensures !OccursAt(s, pattern, k)
    {
      if k < |a| {
        if OccursAt(s, pattern, k) { NoStraddle(a, b, pattern, k); }
      } else {
        assert !OccursAt(b, pattern, k - |a|);
        assert k + |pattern| <= |s| ==> s[k..k + |pattern|] == b[k - |a|..k - |a| + |pattern|];
      }
    }
    FoundAt(s, pattern, |a| + f);
  }

  /** Where the end marker of a marked text is found, when nothing before it holds one. */
  lemma EndIsFound(m: Markers, pre: string, block: string, post: string)
    requires Distinctive(m) && Free(pre, m.end)
    ensures Find(Marked(m, pre, block, post), m.end)
         == |pre| + |m.begin| + (if Has(block, m.end) then Find(block, m.end) else |block|)
  {
    hide FindFrom;
    var back := m.end + post;
    var tail := m.begin + (block + back);
    assert Marked(m, pre, block, post) == pre + tail;
    FindInFront(block, back, m.end);
    EndAfterBegin(m, block + back);
    ShiftFind(pre, tail, m.end);
  }

  lemma BeginIsFound(m: Markers, pre: string, block: string, post: string)
    requires Distinctive(m)
    ensures Find(Marked(m, pre, block, post), m.begin) == if Has(pre, m.begin) then Find(pre, m.begin) else |pre|
  {
    hide FindFrom;
    var tail := m.begin + block + m.end + post;
    assert Marked(m, pre, block, post) == pre + tail;
    FindInFront(pre, tail, m.begin);
  }

  /** Where the markers of a marked text are found: neither straddles a splice. */
  lemma MarkedAt(m: Markers, pre: string, block: string, post: string)
    requires Distinctive(m) && Free(pre, m.begin) && Free(pre, m.end)
    ensures var s := Marked(m, pre, block, post);
            && Find(s, m.begin) == |pre|
            && Find(s, m.end) == |pre| + |m.begin| + (if Has(block, m.end) then Find(block, m.end) else |block|)
  {
    BeginIsFound(m, pre, block, post);
    EndIsFound(m, pre, block, post);
  }

  lemma OccursBetween(a: string, p: string, b: string)
    ensures OccursAt(a + p + b, p, |a|)
    ensures 0 <= Find(a + p + b, p) <= |a|
  {
    var s := a + p + b;
    assert s[|a|..|a| + |p|] == p;
    assert OccursAt(s, p, |a|);
    FindFromIs(s, p, 0);
  }

  lemma MarkedHasBoth(m: Markers, pre: string, block: string, post: string)
    ensures var s := Marked(m, pre, block, post);
            && 0 <= Find(s, m.begin) <= |pre|
            && 0 <= Find(s, m.end) <= |pre| + |m.begin| + |block|
  {
    OccursBetween(pre, m.begin, block + m.end + post);
    assert pre + m.begin + (block + m.end + post) == Marked(m, pre, block, post);
    OccursBetween(pre + m.begin + block, m.end, post);
  }

  /** What a second rewrite keeps of a marked text whose front holds no marker. */
  lemma FrameOfMarked(m: Markers, pre: string, block: string, post: string)
    requires Distinctive(m) && Free(pre, m.begin) && Free(pre, m.end)
    ensures FrameOf(m, Marked(m, pre, block, post)) ==
            Frame(pre, if Has(block, m.end) then block[Find(block, m.end) + |m.end|..] + m.end + post else post)
  {
    var s := Marked(m, pre, block, post);
    MarkedHasBoth(m, pre, block, post);
    MarkedAt(m, pre, block, post);
    var q := if Has(block, m.end) then Find(block, m.end) + |m.end| else |block| + |m.end|;
    assert FrameOf(m, s) == Frame(s[..|pre|], s[|pre| + |m.begin| + q..]);
    SliceMarked(m, pre, block, post, q);
  }

  lemma SliceMarked(m: Markers, pre: string, block: string, post: string, q: nat)
    requires q <= |block| || q == |block| + |m.end|
    ensures var s := Marked(m, pre, block, post);
            && s[..|pre|] == pre
            && s[|pre| + |m.begin| + q..] == if q <= |block| then block[q..] + m.end + post else post
  {
    var front, back := pre + m.begin, block + m.end + post;
    var s := Marked(m, pre, block, post);
    assert s == front + back && front[..|pre|] == pre;
    assert s[|front| + q..] == back[q..];
    if q <= |block| {
      assert back == block[..q] + (block[q..] + m.end + post);
    }
  }

  /** A second rewrite of a marked text whose front holds one marker goes astray. */
  lemma StrayMarkerInFront(m: Markers, pre: string, b1: string, b2: string, post: string)
    requires Distinctive(m) && (Has(pre, m.begin) <==> Free(pre, m.end))
    ensures Rewritten(m, Marked(m, pre, b1, post), b2) != Ok(Marked(m, pre, b2, post))
  {
    MarkedHasBoth(m, pre, b1, post);
    if Free(pre, m.end) {
      StrayBegin(m, pre, b1, b2, post);
    } else {
      StrayEnd(m, pre, b1, b2, post);
    }
  }

  /** With a stray end marker the second result is too long. */
  lemma StrayEnd(m: Markers, pre: string, b1: string, b2: string, post: string)
    requires Distinctive(m) && Free(pre, m.begin) && Has(pre, m.end)
    ensures var s := Marked(m, pre, b1, post);
            Has(s, m.begin) && Has(s, m.end)
            && Marked(m, SentinelFrame(m, s).pre, b2, SentinelFrame(m, s).post) != Marked(m, pre, b2, post)
  {
    var s := Marked(m, pre, b1, post);
    MarkedHasBoth(m, pre, b1, post);
    BeginIsFound(m, pre, b1, post);
    var tail := m.begin + b1 + m.end + post;
    assert s == pre + tail;
    FindInFront(pre, tail, m.end);
    FindFromIs(pre, m.end, 0);
    hide Distinctive, FindFrom, StartsOnlyWithHash;
    assert |Marked(m, SentinelFrame(m, s).pre, b2, SentinelFrame(m, s).post)| > |Marked(m, pre, b2, post)|;
  }

  /** With a stray begin marker the second result is too short, or it would have to be the
      expected one rotated. */
  lemma StrayBegin(m: Markers, pre: string, b1: string, b2: string, post: string)
    requires Distinctive(m) && Has(pre, m.begin) && Free(pre, m.end)
    ensures var s := Marked(m, pre, b1, post);
            Has(s, m.begin) && Has(s, m.end)
            && Marked(m, SentinelFrame(m, s).pre, b2, SentinelFrame(m, s).post) != Marked(m, pre, b2, post)
  {
    hide FindFrom, Marked, StartsOnlyWithHash;
    if Has(b1, m.end) {
      StrayFrame(m, pre, b1, post);
      ErrorsDoNotCancel(m, pre, b1, b2, post);
    } else {
      TooShort(m, pre, b1, b2, post);
    }
  }

  lemma StrayFrame(m: Markers, pre: string, b1: string, post: string)
    requires Distinctive(m) && Has(pre, m.begin) && Free(pre, m.end) && Has(b1, m.end)
    ensures var s, p, q := Marked(m, pre, b1, post), Find(pre, m.begin), Find(b1, m.end) + |m.end|;
            && Has(s, m.begin) && Has(s, m.end) && p + |m.begin| <= |pre| && q <= |b1|
            && SentinelFrame(m, s) == Frame(pre[..p], b1[q..] + m.end + post)
  {
    BeginIsFound(m, pre, b1, post);
    EndIsFound(m, pre, b1, post);
    FindFromIs(pre, m.begin, 0);
    FindFromIs(b1, m.end, 0);
    hide FindFrom;
    SliceMarked(m, pre, b1, post, Find(b1, m.end) + |m.end|);
    SliceFront(m, pre, b1, post, Find(pre, m.begin));
  }

  lemma ErrorsDoNotCancel(m: Markers, pre: string, b1: string, b2: string, post: string)
    requires Distinctive(m) && Has(pre, m.begin) && Free(pre, m.end) && Has(b1, m.end)
    ensures var p, q := Find(pre, m.begin), Find(b1, m.end) + |m.end|;
            && p + |m.begin| <= |pre| && q <= |b1|
            && Marked(m, pre[..p], b2, b1[q..] + m.end + post) != Marked(m, pre, b2, post)
  {
    FindFromIs(pre, m.begin, 0);
    FindFromIs(b1, m.end, 0);
    var p, q := Find(pre, m.begin), Find(b1, m.end) + |m.end|;
    assert OccursAt(pre, m.begin, p) && p + |m.begin| <= |pre| && q <= |b1|;
    hide *;
    SuffixIsFree(pre, m.end, p + |m.begin|);
    NoRotation(m, pre[p + |m.begin|..], b1[q..], b2);
    RotatedText(m, pre, p, b2, b1[q..], post);
  }

  lemma TooShort(m: Markers, pre: string, b1: string, b2: string, post: string)
    requires Distinctive(m) && Has(pre, m.begin) && Free(pre, m.end) && Free(b1, m.end)
    ensures var s := Marked(m, pre, b1, post);
            Has(s, m.begin) && Has(s, m.end)
            && Marked(m, SentinelFrame(m, s).pre, b2, SentinelFrame(m, s).post) != Marked(m, pre, b2, post)
  {
    var s := Marked(m, pre, b1, post);
    BeginIsFound(m, pre, b1, post);
    EndIsFound(m, pre, b1, post);
    FindFromIs(pre, m.begin, 0);
    assert |Marked(m, SentinelFrame(m, s).pre, b2, SentinelFrame(m, s).post)| < |Marked(m, pre, b2, post)|;
  }

  lemma SliceFront(m: Markers, pre: string, block: string, post: string, p: nat)
    requires p <= |pre|
    ensures Marked(m, pre, block, post)[..p] == pre[..p]
  {
    assert Marked(m, pre, block, post) == pre + (m.begin + block + m.end + post);
  }

  lemma SuffixIsFree(s: string, pattern: string, k: nat)
    requires Free(s, pattern) && k <= |s|
    ensures Free(s[k..], pattern)
  {
    FreeIs(s, pattern);
    FreeIs(s[k..], pattern);
    forall j | 0 <= j ensures !OccursAt(s[k..], pattern, j) {
      if OccursAt(s[k..], pattern, j) {
        assert s[k + j..k + j + |pattern|] == s[k..][j..j + |pattern|];
        assert OccursAt(s, pattern, k + j);
      }
    }
  }

  /** Cancelling what the two results share at both ends. */
  lemma RotatedText(m: Markers, pre: string, p: nat, b2: string, w: string, post: string)
    requires OccursAt(pre, m.begin, p)
    requires b2 + (m.end + w) != pre[p + |m.begin|..] + m.begin + b2
    ensures Marked(m, pre[..p], b2, w + m.end + post) != Marked(m, pre, b2, post)
  {
    var y := pre[p + |m.begin|..];
    var front, back := pre[..p] + m.begin, m.end + post;
    assert pre == front + y;
    assert Marked(m, pre[..p], b2, w + m.end + post) == front + (b2 + (m.end + w)) + back;
    assert Marked(m, pre, b2, post) == front + (y + m.begin + b2) + back;
    Cancel(front, b2 + (m.end + w), y + m.begin + b2, back);
  }

  lemma Cancel(a: string, x: string, y: string, b: string)
    ensures a + x + b == a + y + b <==> x == y
  {
    var s, t := a + x + b, a + y + b;
    assert s[|a|..|s| - |b|] == x && t[|a|..|t| - |b|] == y;
  }

  /** No block moves past the stray text: the end marker would have to lie in it. */
  lemma {:induction false} NoRotation(m: Markers, y: string, w: string, b: string)
    requires Distinctive(m) && Free(y, m.end)
    ensures b + (m.end + w) != y + m.begin + b
    decreases |b|
  {
    var v := y + m.begin;
    var s, t := b + (m.end + w), v + b;
    if |b| >= |v| {
      NoRotation(m, y, w, b[|v|..]);
      assert s[|v|..] == b[|v|..] + (m.end + w);
      assert t[|v|..] == b;
      assert s == t ==> b == v + b[|v|..] by {
        assert s[..|v|] == b[..|v|] && t[..|v|] == v;
      }
    } else {
      NotInStray(m, y, b, |b|);
      assert s[|b|..|b| + |m.end|] == m.end;
      assert OccursAt(s, m.end, |b|);
      assert t == y + (m.begin + b);
    }
  }

  lemma NotInStray(m: Markers, y: string, rest: string, k: nat)
    requires Distinctive(m) && Free(y, m.end) && k < |y| + |m.begin|
    ensures !OccursAt(y + (m.begin + rest), m.end, k)
  {
    var s := y + (m.begin + rest);
    FreeIs(y, m.end);
    if k < |y| {
      if OccursAt(s, m.end, k) { NoStraddle(y, m.begin + rest, m.end, k); }
    } else {
      NotInsideBegin(m, rest, k - |y|);
      var j := k - |y|;
      assert k + |m.end| <= |s| ==> s[k..k + |m.end|] == (m.begin + rest)[j..j + |m.end|];
    }
  }

  /** The front of a text never holds both sentinels: it ends at the first begin marker, or the
      text does not hold both. */
  lemma FrontHasNotBoth(m: Markers, text: string)
    requires Distinctive(m) && FrameOf(m, text).Frame?
    ensures !(Has(FrameOf(m, text).pre, m.begin) && Has(FrameOf(m, text).pre, m.end))
  {
    var pre := FrameOf(m, text).pre;
    FindFromIs(text, m.begin, 0);
    FindFromIs(text, m.end, 0);
    FindFromIs(pre, m.begin, 0);
    FindFromIs(pre, m.end, 0);
    FrontIsPrefix(m, text);
    var back := text[|pre|..];
    assert text == pre + back;
    if Has(pre, m.begin) { OccursInFront(pre, back, m.begin, Find(pre, m.begin)); }
    if Has(pre, m.end) { OccursInFront(pre, back, m.end, Find(pre, m.end)); }
  }

  lemma FrontIsPrefix(m: Markers, text: string)
    requires FrameOf(m, text).Frame?
    ensures FrameOf(m, text).pre <= text
  {
    if !(Has(text, m.begin) && Has(text, m.end)) {
      var lines := SplitLines(text);
      var on := Locate(lines).on;
      LinesFlatten(text);
      FlattenAppend(lines[..on], lines[on..]);
      assert lines == lines[..on] + lines[on..];
    }
  }

  /** Put-put: rewriting with `b1` and then `b2` is rewriting with `b2` alone, exactly when the
      text kept in front holds neither marker and `b1` holds no end marker. */
  lemma PutPut(text: string, b1: string, b2: string, pre: string, post: string)
    requires FrameOf(WORKFLOW, text) == Frame(pre, post)
    ensures var once := Rewritten(WORKFLOW, text, b1);
            once.Ok? &&
            (Rewritten(WORKFLOW, once.text, b2) == Rewritten(WORKFLOW, text, b2)
             <==> Free(pre, WORKFLOW.begin) && Free(pre, WORKFLOW.end) && Free(b1, WORKFLOW.end))
  {
    WorkflowMarkersAreDistinctive();
    PutPutFor(WORKFLOW, text, b1, b2, pre, post);
  }

  lemma PutPutFor(m: Markers, text: string, b1: string, b2: string, pre: string, post: string)
    requires Distinctive(m) && FrameOf(m, text) == Frame(pre, post)
    ensures Rewritten(m, Marked(m, pre, b1, post), b2) == Rewritten(m, text, b2)
            <==> Free(pre, m.begin) && Free(pre, m.end) && Free(b1, m.end)
  {
    if Free(pre, m.begin) && Free(pre, m.end) {
      FrameOfMarked(m, pre, b1, post);
      if Has(b1, m.end) {
        var back := b1[Find(b1, m.end) + |m.end|..] + m.end + post;
        assert |Marked(m, pre, b2, back)| > |Marked(m, pre, b2, post)|;
      } else {
        assert [] + post == post;
      }
    } else {
      FrontHasNotBoth(m, text);
      StrayMarkerInFront(m, pre, b1, b2, post);
    }
  }

  /** What lies between the sentinels. */
  function Section(m: Markers, text: string): string
    requires Has(text, m.begin) && Has(text, m.end) && Find(text, m.begin) + |m.begin| <= Find(text, m.end)
  {
    text[Find(text, m.begin) + |m.begin|..Find(text, m.end)]
  }

  /** Put-get: a rewrite's block can be read back, if the front holds no marker and the block
      no end marker. Get-put: putting back what is there changes nothing. */
  lemma PutGet(text: string, block: string, pre: string, post: string)
    requires FrameOf(WORKFLOW, text) == Frame(pre, post)
    requires Free(pre, WORKFLOW.begin) && Free(pre, WORKFLOW.end) && Free(block, WORKFLOW.end)
    ensures var r := Rewritten(WORKFLOW, text, block);
            && r.Ok? && Has(r.text, WORKFLOW.begin) && Has(r.text, WORKFLOW.end)
            && Find(r.text, WORKFLOW.begin) + |WORKFLOW.begin| <= Find(r.text, WORKFLOW.end)
            && Section(WORKFLOW, r.text) == block
            && Rewritten(WORKFLOW, r.text, block) == r
  {
    WorkflowMarkersAreDistinctive();
    SectionOfMarked(WORKFLOW, pre, block, post);
    PutPut(text, block, block, pre, post);
  }

  lemma SectionOfMarked(m: Markers, pre: string, block: string, post: string)
    requires Distinctive(m) && Free(pre, m.begin) && Free(pre, m.end) && Free(block, m.end)
    ensures var s := Marked(m, pre, block, post);
            && Has(s, m.begin) && Has(s, m.end) && Find(s, m.begin) + |m.begin| <= Find(s, m.end)
            && Section(m, s) == block
  {
    MarkedAt(m, pre, block, post);
    var front := pre + m.begin;
    assert Marked(m, pre, block, post) == front + block + (m.end + post);
  }

  lemma GetPut(text: string)
    requires Has(text, WORKFLOW.begin) && Has(text, WORKFLOW.end)
    requires Find(text, WORKFLOW.begin) + |WORKFLOW.begin| <= Find(text, WORKFLOW.end)
    ensures Rewritten(WORKFLOW, text, Section(WORKFLOW, text)) == Ok(text)
  {
    GetPutFor(WORKFLOW, text);
  }

  lemma CutInFive(text: string, a: nat, b: nat, c: nat, d: nat)
    requires a <= b <= c <= d <= |text|
    ensures text[..a] + text[a..b] + text[b..c] + text[c..d] + text[d..] == text
  {
    assert text[..a] + text[a..b] == text[..b];
    assert text[..b] + text[b..c] == text[..c];
    assert text[..c] + text[c..d] == text[..d];
  }

  lemma GetPutFor(m: Markers, text: string)
    requires Has(text, m.begin) && Has(text, m.end)
    requires Find(text, m.begin) + |m.begin| <= Find(text, m.end)
    ensures Rewritten(m, text, Section(m, text)) == Ok(text)
  {
    FindFromIs(text, m.begin, 0);
    FindFromIs(text, m.end, 0);
    var b, e := Find(text, m.begin), Find(text, m.end);
    MarkedAsItIs(m, text, b, e);
    assert Section(m, text) == text[b + |m.begin|..e];
  }

  lemma MarkedAsItIs(m: Markers, text: string, b: nat, e: nat)
    requires OccursAt(text, m.begin, b) && OccursAt(text, m.end, e) && b + |m.begin| <= e
    ensures Marked(m, text[..b], text[b + |m.begin|..e], text[e + |m.end|..]) == text
  {
    CutInFive(text, b, b + |m.begin|, e, e + |m.end|);
  }

  /** The first rendering keeps everything before the `on:` line and from the `jobs:` line on:
      the text is front, replaced span and rest, the span begins with the first `on:` line
      and the rest with the first `jobs:` line. It fails exactly when no `on:` line precedes
      the first `jobs:` line. */
  lemma FirstRenderingFrame(text: string)
    requires !(Has(text, WORKFLOW.begin) && Has(text, WORKFLOW.end))
    ensures var lines := SplitLines(text);
            var on, jobs := FirstLine(lines, ON, 0), FirstLine(lines, JOBS, 0);
            && (FrameOf(WORKFLOW, text) == NoFrame <==> !(jobs < |lines| && on < jobs))
            && (jobs < |lines| && on < jobs ==>
                  var span, rest := Flatten(lines[on..jobs]), Flatten(lines[jobs..]);
                  && FrameOf(WORKFLOW, text) == Frame(Flatten(lines[..on]), ['\n'] + rest)
                  && text == Flatten(lines[..on]) + span + rest
                  && lines[on] <= span && StripEol(lines[on]) == ON
                  && lines[jobs] <= rest && StripEol(lines[jobs]) == JOBS)
  {
    var lines := SplitLines(text);
    var on, jobs := FirstLine(lines, ON, 0), FirstLine(lines, JOBS, 0);
    FirstLineIs(lines, ON, 0);
    FirstLineIs(lines, JOBS, 0);
    LinesFlatten(text);
    if jobs < |lines| && on < jobs {
      FlattenInThree(lines, on, jobs);
      FlattenHead(lines[on..jobs]);
      FlattenHead(lines[jobs..]);
    }
  }

  lemma FlattenHead(lines: seq<string>)
    requires lines != []
    ensures lines[0] <= Flatten(lines)
  {
  }

  lemma FlattenInThree(lines: seq<string>, on: nat, jobs: nat)
    requires on < jobs < |lines|
    ensures Flatten(lines) == Flatten(lines[..on]) + Flatten(lines[on..jobs]) + Flatten(lines[jobs..])
  {
    assert lines == lines[..jobs] + lines[jobs..] && lines[..jobs] == lines[..on] + lines[on..jobs];
    FlattenAppend(lines[..jobs], lines[jobs..]);
    FlattenAppend(lines[..on], lines[on..jobs]);
  }

  // ----- a first rendering, line by line ----------------------------------------

  /** A line ended by LF or by CRLF. */
  datatype TextLine = TextLine(body: string, crlf: bool)

  function Eol(crlf: bool): string { if crlf then "\r\n" else "\n" }

  function PrintLine(l: TextLine): string { l.body + Eol(l.crlf) }

  function Printed(lines: seq<TextLine>): (r: seq<string>)
    ensures |r| == |lines|
  {
    seq(|lines|, i requires 0 <= i < |lines| => PrintLine(lines[i]))
  }

  function PrintText(lines: seq<TextLine>): string { Flatten(Printed(lines)) }

  predicate Unbroken(s: string) { forall i :: 0 <= i < |s| ==> !IsBreak(s[i]) }

  predicate AllUnbroken(lines: seq<TextLine>) { forall i :: 0 <= i < |lines| ==> Unbroken(lines[i].body) }

  predicate NoLine(lines: seq<TextLine>, key: string) { forall i :: 0 <= i < |lines| ==> lines[i].body != key }

  lemma {:induction false} LineLengthIs(body: string, crlf: bool, rest: string)
    requires Unbroken(body)
    ensures LineLength(body + Eol(crlf) + rest) == |body| + |Eol(crlf)|
  {
    var s := body + Eol(crlf) + rest;
    if body == [] {
      assert s == Eol(crlf) + rest && s[0] == (if crlf then '\r' else '\n');
      if crlf { assert s[1] == '\n'; }
    } else {
      assert s[0] == body[0] && s[1..] == body[1..] + Eol(crlf) + rest;
      LineLengthIs(body[1..], crlf, rest);
    }
  }

  /** The ten characters at which Python's `str.splitlines` breaks a text. */
  const BREAKS: set<int> := {0x0A, 0x0B, 0x0C, 0x0D, 0x1C, 0x1D, 0x1E, 0x85, 0x2028, 0x2029}

  /** Each of them ends a line, and no other character does; CR and LF together are one end. */
  lemma {:induction false} BreaksEndLines(body: string, c: char, rest: string)
    requires forall i :: 0 <= i < |body| ==> body[i] as int !in BREAKS
    requires c as int in BREAKS && !(c == '\r' && rest != [] && rest[0] == '\n')
    ensures LineLength(body + [c] + rest) == |body| + 1
    ensures SplitLines(body + [c] + rest) == [body + [c]] + SplitLines(rest)
  {
    var s := body + [c] + rest;
    if body == [] {
      assert s[0] == c && s[1..] == rest;
    } else {
      assert s[0] == body[0] && s[1..] == body[1..] + [c] + rest;
      BreaksEndLines(body[1..], c, rest);
    }
    assert s[..|body| + 1] == body + [c] && s[|body| + 1..] == rest;
  }

  lemma SplitFirst(l: TextLine, rest: string)
    requires Unbroken(l.body)
    ensures SplitLines(PrintLine(l) + rest) == [PrintLine(l)] + SplitLines(rest)
  {
    var s := PrintLine(l) + rest;
    LineLengthIs(l.body, l.crlf, rest);
    assert s[..|PrintLine(l)|] == PrintLine(l) && s[|PrintLine(l)|..] == rest;
  }

  lemma {:induction false} SplitText(lines: seq<TextLine>, rest: string)
    requires AllUnbroken(lines)
    ensures SplitLines(PrintText(lines) + rest) == Printed(lines) + SplitLines(rest)
    decreases |lines|
  {
    if lines == [] {
      assert PrintText(lines) + rest == rest && Printed(lines) + SplitLines(rest) == SplitLines(rest);
    } else {
      var l, more := PrintLine(lines[0]), lines[1..];
      assert Printed(lines)[1..] == Printed(more) && Printed(lines) == [l] + Printed(more);
      hide SplitLines, Flatten;
      FlattenFirst(Printed(lines));
      Associate(l, PrintText(more), rest);
      SplitFirst(lines[0], PrintText(more) + rest);
      SplitText(more, rest);
      Associate([l], Printed(more), SplitLines(rest));
    }
  }

  lemma FlattenFirst(parts: seq<string>)
    requires parts != []
    ensures Flatten(parts) == parts[0] + Flatten(parts[1..])
  {
  }

  lemma StripEolOf(l: TextLine)
    requires Unbroken(l.body)
    ensures StripEol(PrintLine(l)) == l.body
  {
    var s, b := PrintLine(l), l.body;
    assert b == [] || !IsBreak(b[|b| - 1]);
    assert StripEol(b) == b;
    if l.crlf {
      assert s[..|s| - 1] == b + ['\r'] && (b + ['\r'])[..|b|] == b;
    } else {
      assert s[..|s| - 1] == b;
    }
  }

  /** A key is found at the one place it can be. */
  lemma KeyAt(lines: seq<string>, key: string, n: nat)
    requires n < |lines| && StripEol(lines[n]) == key && forall j :: 0 <= j < n ==> StripEol(lines[j]) != key
    ensures FirstLine(lines, key, 0) == n
  {
    FirstLineIs(lines, key, 0);
  }

  lemma NotAmong(lines: seq<TextLine>, key: string)
    requires AllUnbroken(lines) && NoLine(lines, key)
    ensures forall j :: 0 <= j < |lines| ==> StripEol(Printed(lines)[j]) != key
  {
    forall j | 0 <= j < |lines| ensures StripEol(Printed(lines)[j]) != key { StripEolOf(lines[j]); }
  }

  /** Lines, a line, lines, a line and more lines. */
  function Between<T>(front: seq<T>, on: T, section: seq<T>, jobs: T, rest: seq<T>): seq<T> {
    front + ([on] + (section + ([jobs] + rest)))
  }

  lemma BetweenIs<T>(front: seq<T>, on: T, section: seq<T>, jobs: T, rest: seq<T>)
    ensures var lines, n := Between(front, on, section, jobs, rest), |front| + 1 + |section|;
            && |lines| > n && lines[|front|] == on && lines[n] == jobs
            && (forall j :: 0 <= j < |front| ==> lines[j] == front[j])
            && (forall j :: |front| < j < n ==> lines[j] == section[j - |front| - 1])
            && lines[..|front|] == front && lines[n..] == [jobs] + rest
  {
  }

  lemma FrameBetween(front: seq<string>, on: string, section: seq<string>, jobs: string, rest: seq<string>)
    requires StripEol(on) == ON && StripEol(jobs) == JOBS
    requires forall j :: 0 <= j < |front| ==> StripEol(front[j]) != ON && StripEol(front[j]) != JOBS
    requires forall j :: 0 <= j < |section| ==> StripEol(section[j]) != JOBS
    ensures |Between(front, on, section, jobs, rest)| > |front| + 1 + |section|
    ensures Locate(Between(front, on, section, jobs, rest)) == Found(|front|, |front| + 1 + |section|)
  {
    var lines := Between(front, on, section, jobs, rest);
    BetweenIs(front, on, section, jobs, rest);
    assert |ON| == 3 && |JOBS| == 5;
    hide StripEol, Between, FirstLine;
    KeyAt(lines, ON, |front|);
    forall j | 0 <= j < |front| + 1 + |section| ensures StripEol(lines[j]) != JOBS {
      if j > |front| { assert lines[j] == section[j - |front| - 1]; }
    }
    KeyAt(lines, JOBS, |front| + 1 + |section|);
  }

  lemma SplitBetween(front: seq<TextLine>, on: TextLine, section: seq<TextLine>, jobs: TextLine, rest: string)
    requires AllUnbroken(front) && Unbroken(on.body) && AllUnbroken(section) && Unbroken(jobs.body)
    ensures SplitLines(PrintText(front) + (PrintLine(on) + (PrintText(section) + (PrintLine(jobs) + rest))))
         == Between(Printed(front), PrintLine(on), Printed(section), PrintLine(jobs), SplitLines(rest))
  {
    hide SplitLines, PrintText, PrintLine, AllUnbroken, Unbroken;
    SplitText(front, PrintLine(on) + (PrintText(section) + (PrintLine(jobs) + rest)));
    SplitFirst(on, PrintText(section) + (PrintLine(jobs) + rest));
    SplitText(section, PrintLine(jobs) + rest);
    SplitFirst(jobs, rest);
  }

  /** Where the two keys are, and the text on both sides. */
  lemma KeysFound(front: seq<TextLine>, on: TextLine, section: seq<TextLine>, jobs: TextLine, rest: string)
    requires AllUnbroken(front) && NoLine(front, ON) && NoLine(front, JOBS) && on.body == ON
    requires AllUnbroken(section) && NoLine(section, JOBS) && jobs.body == JOBS
    ensures LinesFrame(PrintText(front) + (PrintLine(on) + (PrintText(section) + (PrintLine(jobs) + rest))))
         == Frame(PrintText(front), ['\n'] + (PrintLine(jobs) + rest))
  {
    hide *;
    KeysUnbroken();
    NotAmong(front, ON);
    NotAmong(front, JOBS);
    NotAmong(section, JOBS);
    StripEolOf(on);
    StripEolOf(jobs);
    SplitBetween(front, on, section, jobs, rest);
    FrameBetween(Printed(front), PrintLine(on), Printed(section), PrintLine(jobs), SplitLines(rest));
    var text := PrintText(front) + (PrintLine(on) + (PrintText(section) + (PrintLine(jobs) + rest)));
    var n := |front| + 1 + |section|;
    BetweenIs(Printed(front), PrintLine(on), Printed(section), PrintLine(jobs), SplitLines(rest));
    FrameOfLocated(text, |front|, n);
    TailFlattens(PrintLine(jobs), rest);
    TextIsFlat(front);
  }

  lemma KeysUnbroken()
    ensures Unbroken(ON) && Unbroken(JOBS)
  {
    assert |ON| == 3 && |JOBS| == 5;
  }

  lemma TextIsFlat(lines: seq<TextLine>)
    ensures PrintText(lines) == Flatten(Printed(lines))
  {
  }

  lemma TailFlattens(l: string, rest: string)
    ensures Flatten([l] + SplitLines(rest)) == l + rest
  {
    FlattenFirst([l] + SplitLines(rest));
    assert ([l] + SplitLines(rest))[1..] == SplitLines(rest);
    LinesFlatten(rest);
  }

  lemma FrameOfLocated(text: string, on: nat, jobs: nat)
    requires on <= jobs < |SplitLines(text)| && Locate(SplitLines(text)) == Found(on, jobs)
    ensures LinesFrame(text)
         == Frame(Flatten(SplitLines(text)[..on]), ['\n'] + Flatten(SplitLines(text)[jobs..]))
  {
    hide SplitLines, Locate, Flatten;
  }

  /** A first rendering: the lines before `on:` stay, what follows up to `jobs:` is replaced by the
      block between the markers, and `jobs:` and all after it stay; whether lines end in LF or
      in CRLF. */
  lemma FirstRendering(m: Markers, front: seq<TextLine>, a: bool, section: seq<TextLine>, b: bool, rest: string,
                       block: string)
    requires AllUnbroken(front) && NoLine(front, "on:") && NoLine(front, "jobs:")
    requires AllUnbroken(section) && NoLine(section, "jobs:")
    requires var text := PrintText(front) + (("on:" + Eol(a)) + (PrintText(section) + (("jobs:" + Eol(b)) + rest)));
             !Has(text, m.begin) || !Has(text, m.end)
    ensures var text := PrintText(front) + (("on:" + Eol(a)) + (PrintText(section) + (("jobs:" + Eol(b)) + rest)));
            Rewritten(m, text, block)
              == Ok(PrintText(front) + m.begin + block + m.end + (['\n'] + (("jobs:" + Eol(b)) + rest)))
  {
    hide Has, LinesFrame, PrintText, AllUnbroken, NoLine;
    KeysFound(front, TextLine(ON, a), section, TextLine(JOBS, b), rest);
  }
}

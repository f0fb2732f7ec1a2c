// source_scanner.rs: the tabs of a sketch joined into one `.ino.cpp` and its prelude
// headers.
module Ino {
  import opened Text

  /** A tab: its file stem, the path its `#line` directive names, and its text. */
  datatype Tab = Tab(stem: string, shown: string, content: string)

  // ----- lines ----------------------------------------------------------------

  /** `\r\n` and `\r` become `\n`. */
  function NormalizeLineEndings(s: string): string {
    if s == [] then []
    else if s[0] == '\r' then
      ['\n'] + NormalizeLineEndings(if |s| > 1 && s[1] == '\n' then s[2..] else s[1..])
    else [s[0]] + NormalizeLineEndings(s[1..])
  }

  /** A normalized text has no carriage return left, so `str::lines` splits at newlines only. */
  lemma {:induction false} NoCarriageReturn(s: string)
    ensures '\r' !in NormalizeLineEndings(s)
    decreases |s|
  {
    if s != [] {
      NoCarriageReturn(if s[0] == '\r' && |s| > 1 && s[1] == '\n' then s[2..] else s[1..]);
    }
  }

  /** A text without carriage returns is left as it is. */
  lemma {:induction false} NothingToNormalize(s: string)
    requires '\r' !in s
    ensures NormalizeLineEndings(s) == s
  {
    if s != [] {
      NothingToNormalize(s[1..]);
      assert s == [s[0]] + s[1..];
    }
  }

  // A file as an editor saves it: lines with their ends, the last with or without one.

  datatype Ending = Lf | CrLf | Cr

  datatype RawLine = RawLine(text: string, ending: Ending)

  function PrintEnding(e: Ending): string {
    match e case Lf => ['\n'] case CrLf => ['\r', '\n'] case Cr => ['\r']
  }

  function PrintRaw(lines: seq<RawLine>, last: string): string {
    if lines == [] then last else lines[0].text + (PrintEnding(lines[0].ending) + PrintRaw(lines[1..], last))
  }

  predicate OneLine(s: string) { '\r' !in s && '\n' !in s }

  /** No text holds a line end, and no carriage return is meant to be one before a line feed. */
  predicate WellEnded(lines: seq<RawLine>, last: string) {
    if lines == [] then OneLine(last)
    else
      && OneLine(lines[0].text)
      && (lines[0].ending.Cr? ==> |lines| == 1 || lines[1].text != [] || !lines[1].ending.Lf?)
      && WellEnded(lines[1..], last)
  }

  function RawTexts(lines: seq<RawLine>, last: string): seq<string> {
    if lines == [] then (if last == [] then [] else [last]) else [lines[0].text] + RawTexts(lines[1..], last)
  }

  lemma {:induction false} NormalizePast(text: string, rest: string)
    requires OneLine(text)
    ensures NormalizeLineEndings(text + rest) == text + NormalizeLineEndings(rest)
  {
    var s := text + rest;
    if text == [] {
      assert s == rest && text + NormalizeLineEndings(rest) == NormalizeLineEndings(rest);
    } else {
      assert s[0] == text[0] && s[1..] == text[1..] + rest;
      assert text[0] in text;
      NormalizePast(text[1..], rest);
      assert [text[0]] + (text[1..] + NormalizeLineEndings(rest)) == text + NormalizeLineEndings(rest);
    }
  }

  lemma EndingIsNewline(e: Ending, rest: string)
    requires e.Cr? ==> rest == [] || rest[0] != '\n'
    ensures NormalizeLineEndings(PrintEnding(e) + rest) == ['\n'] + NormalizeLineEndings(rest)
  {
    var s := PrintEnding(e) + rest;
    assert s[|PrintEnding(e)|..] == rest;
    if e.CrLf? { assert s[1] == '\n'; }
  }

  lemma RestStarts(lines: seq<RawLine>, last: string)
    requires WellEnded(lines, last)
    ensures var s := PrintRaw(lines, last);
            s != [] && s[0] == '\n' ==> lines != [] && lines[0].text == [] && lines[0].ending.Lf?
  {
    if lines == [] {
      if last != [] { assert last[0] in last; }
    } else if lines[0].text != [] {
      assert lines[0].text[0] in lines[0].text;
    }
  }

  /** One line of a file and what follows it. */
  lemma NormalizeLine(lines: seq<RawLine>, last: string)
    requires lines != [] && WellEnded(lines, last)
    ensures NormalizeLineEndings(PrintRaw(lines, last))
         == lines[0].text + ['\n'] + NormalizeLineEndings(PrintRaw(lines[1..], last))
  {
    var text, e, rest := lines[0].text, lines[0].ending, PrintRaw(lines[1..], last);
    RestStarts(lines[1..], last);
    NormalizePast(text, PrintEnding(e) + rest);
    EndingIsNewline(e, rest);
    Associate(text, ['\n'], NormalizeLineEndings(rest));
  }

  function LineLength(s: string): (n: nat)
    ensures n <= |s|
  {
    if s == [] || s[0] == '\n' then 0 else 1 + LineLength(s[1..])
  }

  /** `str::lines` of a text without carriage returns: a final newline opens no line. */
  function Lines(s: string): seq<string>
    decreases |s|
  {
    if s == [] then []
    else if LineLength(s) == |s| then [s]
    else [s[..LineLength(s)]] + Lines(s[LineLength(s) + 1..])
  }

  predicate StartsWith(s: string, prefix: string) { prefix <= s }

  predicate IsInclude(line: string) { StartsWith(Trim(line), "#include") }

  function StripLine(line: string): string { if IsInclude(line) then [] else line }

  function StripLines(lines: seq<string>): (r: seq<string>)
    ensures |r| == |lines|
  {
    seq(|lines|, i requires 0 <= i < |lines| => StripLine(lines[i]))
  }

  /** `strip_include_directives`. */
  function Strip(content: string): string { Join(StripLines(Lines(content)), '\n') }

  /** The text with a final newline. */
  function Terminated(s: string): string {
    if s != [] && s[|s| - 1] == '\n' then s else s + ['\n']
  }

  // ----- hoisting -------------------------------------------------------------

  function Includes(lines: seq<string>): seq<string> {
    if lines == [] then []
    else if IsInclude(lines[0]) then [Trim(lines[0])] + Includes(lines[1..])
    else Includes(lines[1..])
  }

  function AllIncludes(contents: seq<string>): seq<string> {
    if contents == [] then [] else Includes(Lines(contents[0])) + AllIncludes(contents[1..])
  }

  /** The first occurrence of each item, in order. */
  function Firsts(items: seq<string>): seq<string> {
    if items == [] then []
    else
      var n := |items| - 1;
      if items[n] in items[..n] then Firsts(items[..n]) else Firsts(items[..n]) + [items[n]]
  }

  /** The loops with `k` tabs and `j` lines of the next read: `passed` is every directive so far. */
  ghost predicate Hoisting(contents: seq<string>, k: nat, j: nat, passed: seq<string>, includes: seq<string>,
                           seen: set<string>)
  {
    && k <= |contents| && includes == Firsts(passed) && (forall s :: s in seen <==> s in passed)
    && if k == |contents| then passed == AllIncludes(contents)
       else j <= |Lines(contents[k])|
            && passed + Includes(Lines(contents[k])[j..]) + AllIncludes(contents[k + 1..]) == AllIncludes(contents)
  }

  lemma HoistTab(contents: seq<string>, k: nat, passed: seq<string>, includes: seq<string>, seen: set<string>)
    requires k <= |contents| && includes == Firsts(passed) && forall s :: s in seen <==> s in passed
    requires passed + AllIncludes(contents[k..]) == AllIncludes(contents)
    ensures Hoisting(contents, k, 0, passed, includes, seen)
  {
    if k < |contents| {
      assert contents[k..][1..] == contents[k + 1..];
      var lines := Lines(contents[k]);
      assert lines[0..] == lines;
      Associate(passed, Includes(lines), AllIncludes(contents[k + 1..]));
    } else {
      assert passed + [] == passed;
    }
  }

  lemma HoistLine(contents: seq<string>, k: nat, j: nat, passed: seq<string>, includes: seq<string>, seen: set<string>)
    requires Hoisting(contents, k, j, passed, includes, seen) && k < |contents| && j < |Lines(contents[k])|
    ensures var line := Lines(contents[k])[j];
            if IsInclude(line) then
              var item := Trim(line);
              Hoisting(contents, k, j + 1, passed + [item], if item in seen then includes else includes + [item],
                       seen + {item})
            else Hoisting(contents, k, j + 1, passed, includes, seen)
  {
    hide IsInclude, Trim, Lines, Firsts, AllIncludes;
    var lines := Lines(contents[k]);
    assert lines[j..][1..] == lines[j + 1..];
    if IsInclude(lines[j]) {
      Associate(passed, [Trim(lines[j])], Includes(lines[j + 1..]));
      FirstsStep(passed, Trim(lines[j]));
    }
  }

  lemma HoistedTab(contents: seq<string>, k: nat, passed: seq<string>, includes: seq<string>, seen: set<string>)
    requires k < |contents| && Hoisting(contents, k, |Lines(contents[k])|, passed, includes, seen)
    ensures Hoisting(contents, k + 1, 0, passed, includes, seen)
  {
    var lines := Lines(contents[k]);
    assert lines[|lines|..] == [] && passed + [] == passed;
    HoistTab(contents, k + 1, passed, includes, seen);
  }

  /** The loops of `hoist_include_directives`. */
  method HoistIncludeDirectives(contents: seq<string>) returns (includes: seq<string>)
    ensures includes == Firsts(AllIncludes(contents))
  {
    var seen: set<string> := {};
    includes := [];
    ghost var passed: seq<string> := [];
    assert contents[0..] == contents && [] + AllIncludes(contents) == AllIncludes(contents);
    HoistTab(contents, 0, passed, includes, seen);
    var k := 0;
    while k < |contents|
      invariant 0 <= k <= |contents| && Hoisting(contents, k, 0, passed, includes, seen)
    {
      hide *;
      var lines := Lines(contents[k]);
      var j := 0;
      while j < |lines|
        invariant 0 <= j <= |lines| && Hoisting(contents, k, j, passed, includes, seen)
      {
        HoistLine(contents, k, j, passed, includes, seen);
        if IsInclude(lines[j]) {
          var normalized := Trim(lines[j]);
          passed := passed + [normalized];
          if normalized !in seen {
            includes := includes + [normalized];
          }
          seen := seen + {normalized};
        }
        j := j + 1;
      }
      HoistedTab(contents, k, passed, includes, seen);
      k := k + 1;
    }
  }

  lemma FirstsStep(items: seq<string>, item: string)
    ensures Firsts(items + [item]) == if item in items then Firsts(items) else Firsts(items) + [item]
  {
    assert (items + [item])[..|items|] == items;
  }

  /** Each item once, none lost, none invented; what is seen first comes first. */
  lemma {:induction false} FirstsAreFirst(items: seq<string>, k: nat)
    requires k <= |items|
    ensures forall i, j :: 0 <= i < j < |Firsts(items)| ==> Firsts(items)[i] != Firsts(items)[j]
    ensures forall s :: s in Firsts(items) <==> s in items
    ensures Firsts(items[..k]) <= Firsts(items)
  {
    if items != [] {
      var n := |items| - 1;
      assert items == items[..n] + [items[n]];
      FirstsAreFirst(items[..n], if k <= n then k else n);
      if k <= n {
        assert items[..n][..k] == items[..k];
      } else {
        assert items[..k] == items;
      }
    }
  }

  // ----- assembly -------------------------------------------------------------

  function Directive(shown: string): string { "#line 1 \"" + shown + "\"" }

  /** A tab's share of the body: its directive, then its stripped text. */
  function Segment(tab: Tab): string {
    Directive(tab.shown) + ['\n'] + Terminated(Strip(tab.content))
  }

  function Segments(tabs: seq<Tab>): string {
    if tabs == [] then [] else Segment(tabs[0]) + Segments(tabs[1..])
  }

  /** `build_ino_prelude`. */
  function Prelude(arduino: bool, includes: seq<string>, prototypes: seq<string>): string {
    (if arduino then "#include <Arduino.h>\n" else [])
    + Each(includes, "\n")
    + (if prototypes == [] then []
       else "// Auto-generated function prototypes\n" + Each(prototypes, ";\n") + ['\n'])
  }

  function Each(items: seq<string>, end: string): string {
    if items == [] then [] else items[0] + end + Each(items[1..], end)
  }

  /** What tab `i` sees before its own text. */
  function TabPrelude(tabs: seq<Tab>, prelude: string, i: nat): string
    requires i <= |tabs|
  {
    prelude + Segments(tabs[..i])
  }

  function Output(tabs: seq<Tab>, prelude: string): string { prelude + Segments(tabs) }

  /** Files of the build directory by name. */
  class BuildDir {
    var files: map<string, string>

    constructor ()
      ensures files == map[]
    {
      files := map[];
    }

    /** `write_if_changed`. */
    method WriteIfChanged(name: string, contents: string)
      modifies this
      ensures files == old(files)[name := contents]
    {
      if name in files && files[name] == contents {
        assert files[name := contents] == files;
        return;
      }
      files := files[name := contents];
    }
  }

  function PreludeName(tab: Tab): string { tab.stem + ".ino.prelude.h" }
  function OutputName(tab: Tab): string { tab.stem + ".ino.cpp" }

  lemma {:induction false} SegmentsAppend(tabs: seq<Tab>, tab: Tab)
    ensures Segments(tabs + [tab]) == Segments(tabs) + Segment(tab)
  {
    if tabs == [] {
      assert [tab][1..] == [] && tabs + [tab] == [tab];
    } else {
      assert (tabs + [tab])[1..] == tabs[1..] + [tab];
      SegmentsAppend(tabs[1..], tab);
      Associate(Segment(tabs[0]), Segments(tabs[1..]), Segment(tab));
    }
  }

  lemma SegmentsNext(tabs: seq<Tab>, n: nat)
    requires n < |tabs|
    ensures Segments(tabs[..n + 1]) == Segments(tabs[..n]) + Segment(tabs[n])
  {
    assert tabs[..n + 1] == tabs[..n] + [tabs[n]];
    SegmentsAppend(tabs[..n], tabs[n]);
  }

  /** The body loop of `preprocess_ino_files`, over text that is already there. */
  method AppendTabs(start: string, tabs: seq<Tab>, count: nat) returns (text: string)
    requires count <= |tabs|
    ensures text == start + Segments(tabs[..count])
  {
    text := start;
    assert tabs[..0] == [] && start + [] == start;
    var i := 0;
    while i < count
      invariant 0 <= i <= count
      invariant text == start + Segments(tabs[..i])
    {
      var content := Strip(tabs[i].content);
      SegmentsNext(tabs, i);
      Associate(start, Segments(tabs[..i]), Segment(tabs[i]));
      text := text + (Directive(tabs[i].shown) + ['\n'] + Terminated(content));
      i := i + 1;
    }
  }

  function PreludeFiles(tabs: seq<Tab>, prelude: string, n: nat): map<string, string>
    requires n <= |tabs|
  {
    if n == 0 then map[]
    else PreludeFiles(tabs, prelude, n - 1)[PreludeName(tabs[n - 1]) := TabPrelude(tabs, prelude, n - 1)]
  }

  ghost predicate Mapped(tabs: seq<Tab>, mapping: seq<(Tab, string)>, n: nat) {
    n <= |tabs| && |mapping| == n && forall j :: 0 <= j < n ==> mapping[j] == (tabs[j], PreludeName(tabs[j]))
  }

  lemma MappedStep(tabs: seq<Tab>, mapping: seq<(Tab, string)>, n: nat)
    requires Mapped(tabs, mapping, n) && n < |tabs|
    ensures Mapped(tabs, mapping + [(tabs[n], PreludeName(tabs[n]))], n + 1)
  {
  }

  lemma WrittenStep(before: map<string, string>, tabs: seq<Tab>, prelude: string, n: nat)
    requires n < |tabs|
    ensures (before + PreludeFiles(tabs, prelude, n))[PreludeName(tabs[n]) := TabPrelude(tabs, prelude, n)]
         == before + PreludeFiles(tabs, prelude, n + 1)
  {
  }

  /** `write_ino_preludes`: the mapping, and one header per tab, later ones over earlier. */
  method WriteInoPreludes(dir: BuildDir, tabs: seq<Tab>, prelude: string) returns (mapping: seq<(Tab, string)>)
    modifies dir
    ensures Mapped(tabs, mapping, |tabs|)
    ensures dir.files == old(dir.files) + PreludeFiles(tabs, prelude, |tabs|)
  {
    mapping := [];
    ghost var before := dir.files;
    var i := 0;
    while i < |tabs|
      invariant 0 <= i <= |tabs| && Mapped(tabs, mapping, i)
      invariant dir.files == before + PreludeFiles(tabs, prelude, i)
    {
      var name := PreludeName(tabs[i]);
      var tabPrelude := AppendTabs(prelude, tabs, i);
      WrittenStep(before, tabs, prelude, i);
      dir.WriteIfChanged(name, tabPrelude);
      MappedStep(tabs, mapping, i);
      mapping := mapping + [(tabs[i], name)];
      i := i + 1;
    }
  }

  /** Prelude agreement: a tab's prelude and its own segment are a prefix of the generated
      file, all of it for the last tab. */
  lemma PreludeAgreement(tabs: seq<Tab>, prelude: string, i: nat)
    requires i < |tabs|
    ensures TabPrelude(tabs, prelude, i) + Segment(tabs[i]) <= Output(tabs, prelude)
    ensures i == |tabs| - 1 ==> TabPrelude(tabs, prelude, i) + Segment(tabs[i]) == Output(tabs, prelude)
  {
    SegmentsNext(tabs, i);
    Associate(prelude, Segments(tabs[..i]), Segment(tabs[i]));
    SegmentsPrefix(tabs, i + 1);
    assert tabs[..|tabs|] == tabs;
  }

  lemma {:induction false} SegmentsPrefix(tabs: seq<Tab>, n: nat)
    requires n <= |tabs|
    ensures Segments(tabs[..n]) <= Segments(tabs)
    decreases |tabs| - n
  {
    if n == |tabs| {
      assert tabs[..n] == tabs;
    } else {
      SegmentsPrefix(tabs, n + 1);
      SegmentsNext(tabs, n);
    }
  }

  /** The header a tab's mapping names holds that tab's prelude exactly when no later tab
      shares its file stem: headers are named by stem alone. */
  lemma {:induction false} HeaderIsTheTabs(tabs: seq<Tab>, prelude: string, n: nat, i: nat)
    requires i < n <= |tabs|
    ensures var files := PreludeFiles(tabs, prelude, n);
            PreludeName(tabs[i]) in files &&
            (files[PreludeName(tabs[i])] == TabPrelude(tabs, prelude, i)
             <==> forall j :: i < j < n ==> tabs[j].stem != tabs[i].stem)
  {
    hide TabPrelude, PreludeName;
    var last := n - 1;
    NamesByStem(tabs[i], tabs[last]);
    var before := PreludeFiles(tabs, prelude, last);
    var name := PreludeName(tabs[last]);
    assert PreludeFiles(tabs, prelude, n) == before[name := TabPrelude(tabs, prelude, last)];
    if i < last {
      if tabs[last].stem == tabs[i].stem {
        LaterPreludeIsLonger(tabs, prelude, i, last);
      } else {
        HeaderIsTheTabs(tabs, prelude, last, i);
      }
    }
  }

  lemma NamesByStem(a: Tab, b: Tab)
    ensures PreludeName(a) == PreludeName(b) <==> a.stem == b.stem
  {
    var n := |".ino.prelude.h"|;
    assert PreludeName(a)[..|PreludeName(a)| - n] == a.stem;
    assert PreludeName(b)[..|PreludeName(b)| - n] == b.stem;
  }

  lemma LaterPreludeIsLonger(tabs: seq<Tab>, prelude: string, i: nat, j: nat)
    requires i < j < |tabs|
    ensures |TabPrelude(tabs, prelude, i)| < |TabPrelude(tabs, prelude, j)|
  {
    SegmentsGrow(tabs, i, j);
  }

  lemma {:induction false} SegmentsGrow(tabs: seq<Tab>, i: nat, j: nat)
    requires i < j <= |tabs|
    ensures |Segments(tabs[..i])| < |Segments(tabs[..j])|
    decreases j
  {
    hide *;
    NextIsLonger(tabs, j - 1);
    if i < j - 1 {
      SegmentsGrow(tabs, i, j - 1);
    }
  }

  lemma NextIsLonger(tabs: seq<Tab>, n: nat)
    requires n < |tabs|
    ensures |Segments(tabs[..n])| < |Segments(tabs[..n + 1])|
  {
    hide *;
    SegmentsNext(tabs, n);
    LengthOfBoth(Segments(tabs[..n]), Segment(tabs[n]));
    SegmentIsText(tabs[n]);
  }

  lemma LengthOfBoth(a: string, b: string)
    ensures |a + b| == |a| + |b|
  {
  }

  lemma SegmentIsText(tab: Tab)
    ensures |Segment(tab)| > 0
  {
    LengthOfBoth(Directive(tab.shown) + ['\n'], Terminated(Strip(tab.content)));
  }

  /** The tabs as they are read: line endings normalized. */
  function Normalized(tabs: seq<Tab>): (r: seq<Tab>)
    ensures |r| == |tabs|
  {
    seq(|tabs|, i requires 0 <= i < |tabs| => tabs[i].(content := NormalizeLineEndings(tabs[i].content)))
  }

  /** `preprocess_ino_files` once the prototypes are known: the generated file, named after
      the first tab, then the headers. */
  method PreprocessInoFiles(dir: BuildDir, files: seq<Tab>, arduino: bool, prototypes: seq<string>)
    returns (output: string, mapping: seq<(Tab, string)>)
    requires files != []
    modifies dir
    ensures output == files[0].stem + ".ino.cpp" && Mapped(Normalized(files), mapping, |files|)
    ensures forall j :: 0 <= j < |files| ==> mapping[j].1 == files[j].stem + ".ino.prelude.h"
    ensures var tabs := Normalized(files);
            var prelude := Prelude(arduino, Firsts(AllIncludes(Contents(tabs))), prototypes);
            dir.files == old(dir.files)[output := Output(tabs, prelude)] + PreludeFiles(tabs, prelude, |tabs|)
  {
    var tabs := Normalized(files);
    var includes := HoistIncludeDirectives(Contents(tabs));
    var prelude := Prelude(arduino, includes, prototypes);
    var text := AppendTabs(prelude, tabs, |tabs|);
    assert tabs[..|tabs|] == tabs;
    output := OutputName(tabs[0]);
    dir.WriteIfChanged(output, text);
    mapping := WriteInoPreludes(dir, tabs, prelude);
  }

  function Contents(tabs: seq<Tab>): (r: seq<string>)
    ensures |r| == |tabs|
  {
    seq(|tabs|, i requires 0 <= i < |tabs| => tabs[i].content)
  }
}

// Where a C preprocessor presumes each line of a generated `.ino.cpp` to be.
module SketchLines {
  import opened Text
  import opened Ino
  import L = Locations

  /** `#line`, however spaced, or a line marker. */
  predicate IsLineDirective(line: string) {
    var t := TrimStart(line);
    t != [] && t[0] == '#' &&
    (var u := TrimStart(t[1..]);
     (|u| >= 4 && u[0] == 'l' && u[1] == 'i' && u[2] == 'n' && u[3] == 'e') || (u != [] && '0' <= u[0] <= '9'))
  }

  predicate Continues(line: string) { line != [] && line[|line| - 1] == '\\' }

  /** The text between the first two double quotes. */
  function Quoted(line: string): string { UpToQuote(AfterQuote(line)) }

  function AfterQuote(s: string): string {
    if s == [] then [] else if s[0] == '"' then s[1..] else AfterQuote(s[1..])
  }

  function UpToQuote(s: string): string {
    if s == [] || s[0] == '"' then [] else [s[0]] + UpToQuote(s[1..])
  }

  /** The first run of digits. */
  function Number(line: string, value: nat, started: bool): nat {
    if line == [] then value
    else if '0' <= line[0] <= '9' then Number(line[1..], value * 10 + (line[0] as int - '0' as int), true)
    else if started then value
    else Number(line[1..], value, started)
  }

  /** The lines of a tab that reach the generated file: a blank last line goes, unless it is
      the only one. */
  function Retained(lines: seq<string>): seq<string> {
    if lines == [] then [[]]
    else if |lines| > 1 && lines[|lines| - 1] == [] then lines[..|lines| - 1]
    else lines
  }

  function TabLines(tab: Tab): seq<string> { Retained(StripLines(Lines(tab.content))) }

  /** A path a `#line` directive can name. */
  predicate Nameable(shown: string) {
    forall i :: 0 <= i < |shown| ==> shown[i] != '"' && shown[i] != '\n' && shown[i] != '\\'
  }

  // Lines of a text, and texts of lines.

  function Unlines(lines: seq<string>): string {
    if lines == [] then [] else lines[0] + ['\n'] + Unlines(lines[1..])
  }

  lemma {:induction false} LineLengthOf(l: string, rest: string)
    requires NoNewline(l) && (rest == [] || rest[0] == '\n')
    ensures LineLength(l + rest) == |l|
  {
    if l == [] {
      assert l + rest == rest;
    } else {
      assert (l + rest)[1..] == l[1..] + rest;
      LineLengthOf(l[1..], rest);
    }
  }

  lemma LinesCons(l: string, rest: string)
    requires NoNewline(l)
    ensures Lines(l + ['\n'] + rest) == [l] + Lines(rest)
  {
    var s := l + ['\n'] + rest;
    assert s == l + (['\n'] + rest);
    LineLengthOf(l, ['\n'] + rest);
    assert s[..|l|] == l && s[|l| + 1..] == rest;
  }

  lemma {:induction false} LinesOfUnlines(lines: seq<string>, rest: string)
    requires forall i :: 0 <= i < |lines| ==> NoNewline(lines[i])
    ensures Lines(Unlines(lines) + rest) == lines + Lines(rest)
  {
    if lines == [] {
      assert Unlines(lines) + rest == rest && lines + Lines(rest) == Lines(rest);
    } else {
      var l, more := lines[0], lines[1..];
      LinesOfUnlines(more, rest);
      LinesCons(l, Unlines(more) + rest);
      Associate(l + ['\n'], Unlines(more), rest);
      Associate([l], more, Lines(rest));
      assert lines == [l] + more;
    }
  }

  lemma {:induction false} UnlinesAppend(a: seq<string>, l: string)
    ensures Unlines(a + [l]) == Unlines(a) + l + ['\n']
  {
    if a == [] {
      assert a + [l] == [l] && [l][1..] == [];
      assert Unlines([l]) == l + ['\n'] + [];
    } else {
      var more := a + [l];
      assert more[0] == a[0] && more[1..] == a[1..] + [l];
      UnlinesAppend(a[1..], l);
      UnlinesFirst(a);
      UnlinesFirst(more);
      hide Unlines;
      AssociateFour(a[0] + ['\n'], Unlines(a[1..]), l, ['\n']);
    }
  }

  lemma UnlinesFirst(lines: seq<string>)
    requires lines != []
    ensures Unlines(lines) == lines[0] + ['\n'] + Unlines(lines[1..])
  {
  }

  lemma {:induction false} JoinIsUnlines(lines: seq<string>)
    requires lines != []
    ensures Join(lines, '\n') == Unlines(lines[..|lines| - 1]) + lines[|lines| - 1]
  {
    if |lines| > 1 {
      JoinIsUnlines(lines[1..]);
      assert lines[1..][..|lines| - 2] == lines[..|lines| - 1][1..];
    }
  }

  /** A stripped text, newline-terminated, is its retained lines. */
  lemma TerminatedJoin(lines: seq<string>)
    requires forall i :: 0 <= i < |lines| ==> NoNewline(lines[i])
    ensures Terminated(Join(lines, '\n')) == Unlines(Retained(lines))
  {
    if lines == [] {
      assert Unlines([[]]) == [] + ['\n'] + [];
    } else {
      var front, last := lines[..|lines| - 1], lines[|lines| - 1];
      JoinIsUnlines(lines);
      TerminatedLast(front, last);
      FrontAndLast(lines);
    }
  }

  lemma FrontAndLast<T>(s: seq<T>)
    requires s != []
    ensures s[..|s| - 1] + [s[|s| - 1]] == s
  {
  }

  lemma TerminatedLast(front: seq<string>, last: string)
    requires NoNewline(last)
    ensures Terminated(Unlines(front) + last) == Unlines(Retained(front + [last]))
  {
    if last == [] {
      TerminatedBlank(front);
    } else {
      TerminatedText(front, last);
    }
  }

  lemma TerminatedBlank(front: seq<string>)
    ensures Terminated(Unlines(front) + []) == Unlines(Retained(front + [[]]))
  {
    assert Unlines(front) + [] == Unlines(front);
    assert (front + [[]])[..|front|] == front;
    if front == [] {
      assert Unlines([[]]) == [] + ['\n'] + [];
    } else {
      UnlinesEnds(front);
    }
  }

  lemma TerminatedText(front: seq<string>, last: string)
    requires NoNewline(last) && last != []
    ensures Terminated(Unlines(front) + last) == Unlines(Retained(front + [last]))
  {
    hide Unlines;
    var text, all := Unlines(front) + last, front + [last];
    assert text[|text| - 1] == last[|last| - 1];
    assert all[|all| - 1] == last;
    UnlinesAppend(front, last);
  }

  lemma UnlinesEnds(lines: seq<string>)
    requires lines != []
    ensures Unlines(lines) != [] && Unlines(lines)[|Unlines(lines)| - 1] == '\n'
  {
    var n := |lines| - 1;
    assert lines == lines[..n] + [lines[n]];
    UnlinesAppend(lines[..n], lines[n]);
  }

  lemma {:induction false} LinesHaveNoNewline(s: string)
    ensures forall i :: 0 <= i < |Lines(s)| ==> NoNewline(Lines(s)[i])
    decreases |s|
  {
    if s != [] {
      NoNewlineBefore(s);
      if LineLength(s) < |s| {
        LinesHaveNoNewline(s[LineLength(s) + 1..]);
      } else {
        assert s[..|s|] == s;
      }
    }
  }

  lemma {:induction false} NoNewlineBefore(s: string)
    ensures NoNewline(s[..LineLength(s)])
  {
    if s != [] && s[0] != '\n' {
      NoNewlineBefore(s[1..]);
      assert s[..LineLength(s)] == [s[0]] + s[1..][..LineLength(s[1..])];
    }
  }

  lemma SegmentText(tab: Tab)
    ensures Segment(tab) == Directive(tab.shown) + ['\n'] + Unlines(TabLines(tab))
    ensures forall i :: 0 <= i < |TabLines(tab)| ==> NoNewline(TabLines(tab)[i])
    ensures TabLines(tab) != []
  {
    LinesHaveNoNewline(tab.content);
    TerminatedJoin(StripLines(Lines(tab.content)));
  }

  lemma DirectiveIsOneLine(shown: string)
    requires NoNewline(shown)
    ensures NoNewline(Directive(shown))
  {
    assert NoNewline("#line 1 \"") && NoNewline("\"");
  }

  /** The physical lines of the body. */
  function BodyLines(tabs: seq<Tab>): seq<string> {
    if tabs == [] then [] else [Directive(tabs[0].shown)] + TabLines(tabs[0]) + BodyLines(tabs[1..])
  }

  lemma SegmentLines(d: string, lines: seq<string>, rest: string)
    requires NoNewline(d) && forall i :: 0 <= i < |lines| ==> NoNewline(lines[i])
    ensures Lines(d + ['\n'] + Unlines(lines) + rest) == [d] + lines + Lines(rest)
  {
    LinesOfUnlines(lines, rest);
    LinesCons(d, Unlines(lines) + rest);
    Associate(d + ['\n'], Unlines(lines), rest);
    Associate([d], lines, Lines(rest));
  }

  ghost predicate AllNameable(tabs: seq<Tab>) { forall k :: 0 <= k < |tabs| ==> Nameable(tabs[k].shown) }

  /** No path breaks the line of its directive. */
  ghost predicate AllOneLine(tabs: seq<Tab>) { forall k :: 0 <= k < |tabs| ==> NoNewline(tabs[k].shown) }

  lemma NameableOneLine(tabs: seq<Tab>)
    requires AllNameable(tabs)
    ensures AllOneLine(tabs)
  {
    forall k | 0 <= k < |tabs| ensures NoNewline(tabs[k].shown) { assert Nameable(tabs[k].shown); }
  }

  lemma {:induction false} BodyLinesAre(tabs: seq<Tab>)
    requires AllOneLine(tabs)
    ensures Lines(Segments(tabs)) == BodyLines(tabs)
  {
    if tabs != [] {
      BodyLinesAre(tabs[1..]);
      SegmentText(tabs[0]);
      DirectiveIsOneLine(tabs[0].shown);
      SegmentLines(Directive(tabs[0].shown), TabLines(tabs[0]), Segments(tabs[1..]));
    }
  }

  // ----- reading the body -----------------------------------------------------

  lemma {:induction false} QuotedIs(shown: string, rest: string)
    requires forall i :: 0 <= i < |shown| ==> shown[i] != '"'
    ensures UpToQuote(shown + ['"'] + rest) == shown
  {
    var s := shown + ['"'] + rest;
    if shown != [] {
      assert s[1..] == shown[1..] + ['"'] + rest;
      QuotedIs(shown[1..], rest);
    }
  }

  /** The generated directive reads as line 1 of the tab's path. */
  lemma DirectiveReads(shown: string)
    requires forall i :: 0 <= i < |shown| ==> shown[i] != '"'
    ensures var d := Directive(shown);
            IsLineDirective(d) && Quoted(d) == shown && Number(d, 0, false) == 1 && !Continues(d)
  {
    var d := Directive(shown);
    var q := shown + ['"'];
    assert d[0] == '#' && d[1] == 'l' && d[2] == 'i' && d[3] == 'n' && d[4] == 'e';
    assert d[5] == ' ' && d[6] == '1' && d[7] == ' ' && d[8] == '"' && d[9..] == q;
    assert d[1..][0] == 'l';
    assert d[|d| - 1] == '"';
    NumberIsOne(d);
    QuoteAt(d, 0);
    QuotedIs(shown, []);
    assert q == shown + ['"'] + [];
    assert d[0..] == d;
  }

  lemma {:induction false} QuoteAt(d: string, i: nat)
    requires i <= 8 < |d| && d[8] == '"' && forall k :: 0 <= k < 8 ==> d[k] != '"'
    ensures AfterQuote(d[i..]) == d[9..]
    decreases 8 - i
  {
    assert d[i..][0] == d[i] && d[i..][1..] == d[i + 1..];
    if i < 8 { QuoteAt(d, i + 1); }
  }

  lemma NumberIsOne(d: string)
    requires |d| > 7 && d[6] == '1' && d[7] == ' ' && forall k :: 0 <= k < 6 ==> !('0' <= d[k] <= '9')
    ensures Number(d, 0, false) == 1
  {
    NumberSkips(d, 0);
    assert d[0..] == d;
    assert d[6..][0] == '1' && d[6..][1..] == d[7..] && d[7..][0] == ' ';
    assert Number(d[7..], 1, true) == 1;
  }

  lemma {:induction false} NumberSkips(d: string, i: nat)
    requires i <= 6 < |d| && forall k :: 0 <= k < 6 ==> !('0' <= d[k] <= '9')
    ensures Number(d[i..], 0, false) == Number(d[6..], 0, false)
    decreases 6 - i
  {
    if i < 6 {
      assert d[i..][0] == d[i] && d[i..][1..] == d[i + 1..];
      NumberSkips(d, i + 1);
    }
  }

  // ----- the body as parts ------------------------------------------------------

  function PartOf(tab: Tab): L.Part { L.Part(tab.shown, Directive(tab.shown), TabLines(tab)) }

  function PartsOf(tabs: seq<Tab>): (r: seq<L.Part>)
    ensures |r| == |tabs|
  {
    if tabs == [] then [] else [PartOf(tabs[0])] + PartsOf(tabs[1..])
  }

  lemma {:induction false} BodyIsWhole(tabs: seq<Tab>)
    ensures BodyLines(tabs) == L.Whole(PartsOf(tabs))
  {
    if tabs != [] { BodyIsWhole(tabs[1..]); }
  }

  lemma {:induction false} PartsAt(tabs: seq<Tab>, k: nat)
    requires k < |tabs|
    ensures PartsOf(tabs)[k] == PartOf(tabs[k])
  {
    if k > 0 { PartsAt(tabs[1..], k - 1); }
  }

  /** A reader that knows a `#line` directive where one can start. */
  ghost predicate Honest(r: L.Reader) {
    forall before: seq<string>, shown: string :: Nameable(shown) ==>
      r.effect(before, Directive(shown)) == if r.begun(before) then L.Nothing else L.Renames(shown, 1)
  }

  /** To the reader none of the lines is a line directive, wherever it stands. */
  ghost predicate Unnamed(r: L.Reader, lines: seq<string>) {
    forall before: seq<string>, j :: 0 <= j < |lines| ==> !r.effect(before, lines[j]).Renames?
  }

  ghost predicate AllUnnamed(r: L.Reader, tabs: seq<Tab>) {
    forall k :: 0 <= k < |tabs| ==> Unnamed(r, TabLines(tabs[k]))
  }

  lemma {:induction false} UnnamedIsQuiet(r: L.Reader, lines: seq<string>, before: seq<string>)
    requires Unnamed(r, lines)
    ensures L.Quiet(r, lines, before)
    decreases |lines|
  {
    if lines != [] {
      assert forall b: seq<string>, j :: 0 <= j < |lines[1..]| ==>
               r.effect(b, lines[1..][j]) == r.effect(b, lines[j + 1]);
      UnnamedIsQuiet(r, lines[1..], before + [lines[0]]);
    }
  }

  lemma PartIsSound(r: L.Reader, tab: Tab, before: seq<string>)
    requires Honest(r) && Nameable(tab.shown) && Unnamed(r, TabLines(tab))
    ensures L.Sound(r, PartOf(tab), before)
  {
    hide Unnamed, L.Quiet, Nameable, TabLines, Directive;
    UnnamedIsQuiet(r, TabLines(tab), before + [Directive(tab.shown)]);
  }

  lemma {:induction false} PartsAreSound(r: L.Reader, tabs: seq<Tab>, before: seq<string>)
    requires Honest(r) && AllNameable(tabs) && AllUnnamed(r, tabs)
    ensures L.AllSound(r, PartsOf(tabs), before)
    decreases |tabs|
  {
    if tabs != [] {
      hide Honest, Unnamed, L.Sound, Nameable, PartOf;
      PartIsSound(r, tabs[0], before);
      assert AllNameable(tabs[1..]) && AllUnnamed(r, tabs[1..]);
      PartsAreSound(r, tabs[1..], before + L.Lines(PartOf(tabs[0])));
    }
  }

  lemma OutputLines(tabs: seq<Tab>, preludeLines: seq<string>)
    requires AllNameable(tabs) && forall i :: 0 <= i < |preludeLines| ==> NoNewline(preludeLines[i])
    ensures Lines(Output(tabs, Unlines(preludeLines))) == preludeLines + L.Whole(PartsOf(tabs))
  {
    LinesOfUnlines(preludeLines, Segments(tabs));
    NameableOneLine(tabs);
    BodyLinesAre(tabs);
    BodyIsWhole(tabs);
  }

  /** Where the preprocessor places the lines of the generated file. */
  function Presumed(r: L.Reader, text: string, generated: string): seq<L.Located> {
    L.Read(r, Lines(text), [], [], generated, 1)
  }

  /** Diagnostic locations: in the generated file the prelude's lines are numbered in that
      file and every line of every tab at its own place in its own tab exactly when every
      directive is heard, and whatever conditions are true exactly when no comment, literal,
      unfinished line or conditional group is open at the end of the prelude or of a tab but
      the last. */
  lemma DiagnosticLocations(r: L.Reader, tabs: seq<Tab>, preludeLines: seq<string>, generated: string)
    requires Honest(r) && AllNameable(tabs) && AllUnnamed(r, tabs) && Unnamed(r, preludeLines)
    requires forall i :: 0 <= i < |preludeLines| ==> NoNewline(preludeLines[i])
    ensures var text, parts := Output(tabs, Unlines(preludeLines)), PartsOf(tabs);
            var meant := L.Numbered(generated, preludeLines, 1) + L.Meant(parts);
            var open := L.Opened(r, preludeLines, [], []);
            && (Presumed(r, text, generated) == meant <==> L.Heard(r, parts, preludeLines, open))
            && ((forall holds :: Presumed(L.Given(r, holds), text, generated) == meant)
                <==> L.Shut(r, parts, preludeLines, open))
  {
    var parts := PartsOf(tabs);
    OutputLines(tabs, preludeLines);
    UnnamedIsQuiet(r, preludeLines, []);
    PartsAreSound(r, tabs, preludeLines);
    hide Honest, AllNameable, AllUnnamed, Unnamed, L.Quiet, L.AllSound, L.Read, L.Numbered, L.Meant, L.Heard, L.Shut;
    assert L.Given(r, r.holds) == r;
    L.PlacesMeant(r, r.holds, preludeLines, parts, generated);
    L.PlacesMeantAlways(r, preludeLines, parts, generated);
    forall holds
      ensures Presumed(L.Given(r, holds), Output(tabs, Unlines(preludeLines)), generated)
           == L.Places(r, holds, preludeLines, parts, generated)
    {
    }
  }

  lemma TextLineIsKept(tab: Tab, j: nat)
    requires j < |Lines(tab.content)|
    requires Lines(tab.content)[j] != [] && !IsInclude(Lines(tab.content)[j])
    ensures j < |TabLines(tab)| && TabLines(tab)[j] == Lines(tab.content)[j]
  {
    var ls := StripLines(Lines(tab.content));
    assert ls[j] == Lines(tab.content)[j];
  }

  lemma KeptLineIsMeant(tabs: seq<Tab>, k: nat, j: nat, text: string)
    requires k < |tabs| && j < |TabLines(tabs[k])| && TabLines(tabs[k])[j] == text
    ensures L.Located(tabs[k].shown, j + 1, text) in L.Meant(PartsOf(tabs))
  {
    PartsAt(tabs, k);
    L.LineIsMeant(PartsOf(tabs), k, j);
  }

  /** The meant locations hold every line of a tab that is neither blank nor an include. */
  lemma EveryLineIsMeant(tabs: seq<Tab>, k: nat, j: nat)
    requires k < |tabs| && j < |Lines(tabs[k].content)|
    requires Lines(tabs[k].content)[j] != [] && !IsInclude(Lines(tabs[k].content)[j])
    ensures L.Located(tabs[k].shown, j + 1, Lines(tabs[k].content)[j]) in L.Meant(PartsOf(tabs))
  {
    TextLineIsKept(tabs[k], j);
    KeptLineIsMeant(tabs, k, j, Lines(tabs[k].content)[j]);
  }

  /** The lines of a file, whatever ends them, are the lines of the tab. */
  lemma {:induction false} LinesOfRaw(lines: seq<RawLine>, last: string)
    requires WellEnded(lines, last)
    ensures Lines(NormalizeLineEndings(PrintRaw(lines, last))) == RawTexts(lines, last)
  {
    if lines == [] {
      NothingToNormalize(last);
      LineLengthOf(last, []);
      assert last + [] == last;
    } else {
      NormalizeLine(lines, last);
      LinesOfRaw(lines[1..], last);
      LinesCons(lines[0].text, NormalizeLineEndings(PrintRaw(lines[1..], last)));
    }
  }

  /** Line `j` of a file on disk, ended as it may be, is meant to be at line `j` of its path. */
  lemma RawLineIsMeant(files: seq<Tab>, k: nat, lines: seq<RawLine>, last: string, j: nat)
    requires k < |files| && WellEnded(lines, last) && files[k].content == PrintRaw(lines, last)
    requires j < |RawTexts(lines, last)|
    requires RawTexts(lines, last)[j] != [] && !IsInclude(RawTexts(lines, last)[j])
    ensures L.Located(files[k].shown, j + 1, RawTexts(lines, last)[j]) in L.Meant(PartsOf(Normalized(files)))
  {
    hide IsInclude, PartsOf, L.Meant, Lines, NormalizeLineEndings;
    LinesOfRaw(lines, last);
    EveryLineIsMeant(Normalized(files), k, j);
  }

  /** No include directive is left in any tab's share of the body. */
  lemma NoIncludeLeft(tab: Tab, j: nat)
    requires j < |TabLines(tab)|
    ensures !IsInclude(TabLines(tab)[j])
  {
    var ls := StripLines(Lines(tab.content));
    assert Trim([]) == [];
    assert TabLines(tab)[j] == [] || (j < |ls| && TabLines(tab)[j] == ls[j]);
  }

  // ----- the prelude ----------------------------------------------------------

  const ARDUINO := "#include <Arduino.h>"
  const BANNER := "// Auto-generated function prototypes"

  function Declarations(prototypes: seq<string>): seq<string> {
    if prototypes == [] then [] else [prototypes[0] + ";"] + Declarations(prototypes[1..])
  }

  /** The lines of the prelude. */
  function PreludeLines(arduino: bool, includes: seq<string>, prototypes: seq<string>): seq<string> {
    (if arduino then [ARDUINO] else []) + includes
    + (if prototypes == [] then [] else [BANNER] + Declarations(prototypes) + [[]])
  }

  lemma {:induction false} UnlinesConcat(a: seq<string>, b: seq<string>)
    ensures Unlines(a + b) == Unlines(a) + Unlines(b)
  {
    if a == [] {
      assert a + b == b;
    } else {
      assert (a + b)[1..] == a[1..] + b;
      UnlinesConcat(a[1..], b);
      Associate(a[0] + ['\n'], Unlines(a[1..]), Unlines(b));
    }
  }

  lemma {:induction false} EachIsUnlines(items: seq<string>)
    ensures Each(items, "\n") == Unlines(items)
  {
    if items != [] { EachIsUnlines(items[1..]); }
  }

  lemma {:induction false} DeclarationsPrinted(prototypes: seq<string>)
    ensures Each(prototypes, ";\n") == Unlines(Declarations(prototypes))
  {
    if prototypes != [] {
      DeclarationsPrinted(prototypes[1..]);
      assert prototypes[0] + ";" + ['\n'] == prototypes[0] + ";\n";
    }
  }

  lemma UnlinesOfOne(l: string)
    ensures Unlines([l]) == l + ['\n']
  {
    assert [l][1..] == [] && Unlines([]) == [];
  }

  lemma BlockPrinted(prototypes: seq<string>)
    ensures Unlines([BANNER] + Declarations(prototypes) + [[]])
         == "// Auto-generated function prototypes\n" + Each(prototypes, ";\n") + ['\n']
  {
    DeclarationsPrinted(prototypes);
    UnlinesConcat([BANNER] + Declarations(prototypes), [[]]);
    UnlinesConcat([BANNER], Declarations(prototypes));
    UnlinesOfOne(BANNER);
    UnlinesOfOne([]);
    assert BANNER + ['\n'] == "// Auto-generated function prototypes\n";
  }

  /** The prelude is its lines. */
  lemma PreludeIsLines(arduino: bool, includes: seq<string>, prototypes: seq<string>)
    ensures Prelude(arduino, includes, prototypes) == Unlines(PreludeLines(arduino, includes, prototypes))
  {
    var head := if arduino then [ARDUINO] else [];
    var tail := if prototypes == [] then [] else [BANNER] + Declarations(prototypes) + [[]];
    UnlinesConcat(head + includes, tail);
    UnlinesConcat(head, includes);
    EachIsUnlines(includes);
    if prototypes != [] { BlockPrinted(prototypes); }
    UnlinesOfOne(ARDUINO);
    assert ARDUINO + ['\n'] == "#include <Arduino.h>\n";
  }

  // ----- the hoisted directives -----------------------------------------------

  lemma {:induction false} TrimStartTail(s: string)
    ensures TrimStart(s) == [] || !IsWhitespace(TrimStart(s)[0])
    ensures NoNewline(s) ==> NoNewline(TrimStart(s))
  {
    if s != [] && IsWhitespace(s[0]) { TrimStartTail(s[1..]); }
  }

  lemma {:induction false} TrimEndFront(s: string)
    ensures TrimEnd(s) <= s
    ensures TrimEnd(TrimEnd(s)) == TrimEnd(s)
    ensures NoNewline(s) ==> NoNewline(TrimEnd(s))
  {
    if s != [] && IsWhitespace(s[|s| - 1]) { TrimEndFront(s[..|s| - 1]); }
  }

  /** Trimming is idempotent and keeps a line a line. */
  lemma TrimSettles(s: string)
    ensures Trim(Trim(s)) == Trim(s)
    ensures NoNewline(s) ==> NoNewline(Trim(s))
  {
    TrimStartTail(s);
    TrimEndFront(TrimStart(s));
    var t := Trim(s);
    if t != [] { assert t[0] == TrimStart(s)[0]; }
    assert TrimStart(t) == t;
  }

  /** A trimmed include directive on one line. */
  predicate Hoisted(line: string) { IsInclude(line) && Trim(line) == line && NoNewline(line) && !IsLineDirective(line) }

  lemma TrimmedIsHoisted(line: string)
    requires IsInclude(line) && NoNewline(line)
    ensures Hoisted(Trim(line))
  {
    TrimSettles(line);
    var t := Trim(line);
    assert t[0] == '#' && t[1] == 'i';
    assert t[1..][0] == 'i';
  }

  lemma {:induction false} IncludesAreHoisted(lines: seq<string>)
    requires forall i :: 0 <= i < |lines| ==> NoNewline(lines[i])
    ensures forall l :: l in Includes(lines) ==> Hoisted(l)
  {
    if lines != [] {
      IncludesAreHoisted(lines[1..]);
      if IsInclude(lines[0]) { TrimmedIsHoisted(lines[0]); }
    }
  }

  lemma {:induction false} AllAreHoisted(contents: seq<string>)
    ensures forall l :: l in AllIncludes(contents) ==> Hoisted(l)
  {
    if contents != [] {
      LinesHaveNoNewline(contents[0]);
      IncludesAreHoisted(Lines(contents[0]));
      AllAreHoisted(contents[1..]);
    }
  }

  lemma {:induction false} IncludesConcat(a: seq<string>, b: seq<string>)
    ensures Includes(a + b) == Includes(a) + Includes(b)
  {
    if a == [] {
      assert a + b == b;
    } else {
      assert (a + b)[1..] == a[1..] + b;
      IncludesConcat(a[1..], b);
    }
  }

  lemma {:induction false} NoneIncluded(lines: seq<string>)
    requires forall i :: 0 <= i < |lines| ==> !IsInclude(lines[i])
    ensures Includes(lines) == []
  {
    if lines != [] { NoneIncluded(lines[1..]); }
  }

  lemma {:induction false} HoistedStay(lines: seq<string>)
    requires forall i :: 0 <= i < |lines| ==> Hoisted(lines[i])
    ensures Includes(lines) == lines
  {
    if lines != [] { HoistedStay(lines[1..]); }
  }

  lemma DirectiveIsNoInclude(shown: string)
    ensures !IsInclude(Directive(shown))
  {
    var d := Directive(shown);
    assert d[0] == '#' && d[1] == 'l' && d[|d| - 1] == '"';
    assert TrimStart(d) == d && TrimEnd(d) == d;
  }

  lemma {:induction false} BodyHasNoInclude(tabs: seq<Tab>)
    ensures Includes(BodyLines(tabs)) == []
  {
    if tabs != [] {
      var d, lines := Directive(tabs[0].shown), TabLines(tabs[0]);
      DirectiveIsNoInclude(tabs[0].shown);
      forall j | 0 <= j < |lines| ensures !IsInclude(lines[j]) { NoIncludeLeft(tabs[0], j); }
      NoneIncluded([d]);
      NoneIncluded(lines);
      BodyHasNoInclude(tabs[1..]);
      IncludesConcat([d] + lines, BodyLines(tabs[1..]));
      IncludesConcat([d], lines);
    }
  }

  /** Prototypes as lines of their own that are no includes. */
  ghost predicate Declarable(prototypes: seq<string>) {
    var lines := Declarations(prototypes);
    forall i :: 0 <= i < |lines| ==> NoNewline(lines[i]) && !IsInclude(lines[i])
  }

  lemma HeadIsHoisted(arduino: bool)
    ensures var head := if arduino then [ARDUINO] else []; forall i :: 0 <= i < |head| ==> Hoisted(head[i])
  {
    assert ARDUINO[0] == '#' && ARDUINO[1] == 'i' && ARDUINO[|ARDUINO| - 1] == '>';
    assert TrimStart(ARDUINO) == ARDUINO && TrimEnd(ARDUINO) == ARDUINO;
    assert ARDUINO[1..][0] == 'i';
    assert "#include" <= ARDUINO;
  }

  lemma BannerIsPlain()
    ensures NoNewline(BANNER) && !IsLineDirective(BANNER) && !IsInclude(BANNER)
    ensures NoNewline([]) && !IsLineDirective([]) && !IsInclude([])
  {
    assert BANNER[0] == '/' && BANNER[|BANNER| - 1] == 's';
    assert TrimStart(BANNER) == BANNER && TrimEnd(BANNER) == BANNER;
    assert Trim([]) == [];
  }

  /** What is hoisted, and the lines after it. */
  lemma PreludeShape(arduino: bool, includes: seq<string>, prototypes: seq<string>)
    requires (forall l :: l in includes ==> Hoisted(l)) && Declarable(prototypes)
    ensures var pre := PreludeLines(arduino, includes, prototypes);
            && (forall i :: 0 <= i < |pre| ==> NoNewline(pre[i]))
            && (NoLineDirective(Declarations(prototypes)) ==> NoLineDirective(pre))
            && Includes(pre) == (if arduino then [ARDUINO] else []) + includes
  {
    var head := (if arduino then [ARDUINO] else []) + includes;
    var tail := if prototypes == [] then [] else [BANNER] + Declarations(prototypes) + [[]];
    HeadIsHoisted(arduino);
    BannerIsPlain();
    hide IsInclude, Trim, TrimStart, IsLineDirective, NoNewline, Includes;
    assert forall i :: 0 <= i < |includes| ==> includes[i] in includes;
    assert forall i :: 0 <= i < |head| ==> Hoisted(head[i]);
    HoistedStay(head);
    assert forall i :: 0 <= i < |tail| ==> NoNewline(tail[i]) && !IsInclude(tail[i]);
    assert NoLineDirective(Declarations(prototypes)) ==> forall i :: 0 <= i < |tail| ==> !IsLineDirective(tail[i]);
    NoneIncluded(tail);
    IncludesConcat(head, tail);
  }

  /** The include directives of the generated file are those of the tabs, each once and in
      first-seen order, after `Arduino.h` if it is asked for. */
  lemma IncludedOnce(tabs: seq<Tab>, arduino: bool, prototypes: seq<string>)
    requires AllOneLine(tabs) && Declarable(prototypes)
    ensures var includes := Firsts(AllIncludes(Contents(tabs)));
            Includes(Lines(Output(tabs, Prelude(arduino, includes, prototypes))))
              == (if arduino then [ARDUINO] else []) + includes
  {
    var items := AllIncludes(Contents(tabs));
    var includes := Firsts(items);
    var pre := PreludeLines(arduino, includes, prototypes);
    AllAreHoisted(Contents(tabs));
    FirstsAreFirst(items, 0);
    PreludeShape(arduino, includes, prototypes);
    PreludeIsLines(arduino, includes, prototypes);
    LinesOfUnlines(pre, Segments(tabs));
    BodyLinesAre(tabs);
    IncludesConcat(pre, BodyLines(tabs));
    BodyHasNoInclude(tabs);
  }

  /** Where the lines of the generated file are presumed to be, from the tabs and prototypes
      alone: as meant whatever conditions are true exactly when nothing is open at the end of
      the prelude or of a tab but the last. */
  lemma GeneratedLocations(r: L.Reader, tabs: seq<Tab>, arduino: bool, prototypes: seq<string>, generated: string)
    requires AllNameable(tabs) && Declarable(prototypes) && Honest(r) && AllUnnamed(r, tabs)
    requires Unnamed(r, PreludeLines(arduino, Firsts(AllIncludes(Contents(tabs))), prototypes))
    ensures var includes := Firsts(AllIncludes(Contents(tabs)));
            var pre, parts := PreludeLines(arduino, includes, prototypes), PartsOf(tabs);
            var text := Output(tabs, Prelude(arduino, includes, prototypes));
            (forall holds :: Presumed(L.Given(r, holds), text, generated)
                             == L.Numbered(generated, pre, 1) + L.Meant(parts))
            <==> L.Shut(r, parts, pre, L.Opened(r, pre, [], []))
  {
    var items := AllIncludes(Contents(tabs));
    var includes := Firsts(items);
    var pre := PreludeLines(arduino, includes, prototypes);
    AllAreHoisted(Contents(tabs));
    FirstsAreFirst(items, 0);
    PreludeShape(arduino, includes, prototypes);
    PreludeIsLines(arduino, includes, prototypes);
    hide Hoisted, AllIncludes, Firsts, Prelude, PreludeLines, Honest, AllNameable, AllUnnamed, Unnamed, L.Shut;
    DiagnosticLocations(r, tabs, pre, generated);
  }

  // ----- tab by tab -------------------------------------------------------------

  function Word(s: string): string {
    if s == [] || !('a' <= s[0] <= 'z' || 'A' <= s[0] <= 'Z' || '0' <= s[0] <= '9' || s[0] == '_') then []
    else [s[0]] + Word(s[1..])
  }

  function Keyword(line: string): string {
    var t := TrimStart(line);
    if t == [] || t[0] != '#' then [] else Word(TrimStart(t[1..]))
  }

  /** What a line does where a directive can start and no comment stands before it. */
  function EffectOf(line: string): L.Effect {
    if IsLineDirective(line) then L.Renames(Quoted(line), Number(line, 0, false))
    else
      var w := Keyword(line);
      if w == "if" || w == "ifdef" || w == "ifndef" then L.If
      else if w == "elif" || w == "elifdef" || w == "elifndef" then L.Elif
      else if w == "else" then L.Else
      else if w == "endif" then L.EndIf
      else L.Nothing
  }

  /** A backslash joins the next line to this one, so to a line with a token in it unless all
      that is joined so far is blank. */
  predicate Carries(spliced: bool, line: string) {
    Continues(line) && (spliced || TrimStart(line[..|line| - 1]) != [])
  }

  predicate Spliced(before: seq<string>) {
    before != [] && Carries(Spliced(before[..|before| - 1]), before[|before| - 1])
  }

  function Effect(before: seq<string>, line: string): L.Effect {
    if Spliced(before) then L.Nothing else EffectOf(line)
  }

  /** The reader of lines on which comments and literals end and hide no directive. */
  function Simple(holds: nat -> bool): L.Reader { L.Reader(Spliced, Effect, holds) }

  lemma SimpleIsHonest(holds: nat -> bool)
    ensures Honest(Simple(holds))
  {
    var r := Simple(holds);
    forall before: seq<string>, shown: string | Nameable(shown)
      ensures r.effect(before, Directive(shown)) == if r.begun(before) then L.Nothing else L.Renames(shown, 1)
    {
      DirectiveReads(shown);
    }
  }

  predicate NoLineDirective(lines: seq<string>) {
    forall i :: 0 <= i < |lines| ==> !IsLineDirective(lines[i])
  }

  function Deeper(e: L.Effect, depth: nat): nat {
    if e.If? then depth + 1 else if e.EndIf? && depth > 0 then depth - 1 else depth
  }

  /** What lines leave to those after them: whether a line is unfinished, and how many groups
      are open. */
  function Left(lines: seq<string>, spliced: bool, depth: nat): (bool, nat) {
    if lines == [] then (spliced, depth)
    else Left(lines[1..], Carries(spliced, lines[0]),
              Deeper(if spliced then L.Nothing else EffectOf(lines[0]), depth))
  }

  /** Lines that leave nothing open. */
  predicate Closed(lines: seq<string>) { Left(lines, false, 0) == (false, 0) }

  lemma {:induction false} LeftIs(lines: seq<string>, holds: nat -> bool, before: seq<string>, groups: seq<L.Group>)
    ensures Left(lines, Spliced(before), |groups|)
         == (Spliced(before + lines), |L.Opened(Simple(holds), lines, before, groups)|)
    decreases |lines|
  {
    hide EffectOf, Carries, Spliced, Deeper, L.After;
    if lines == [] {
      assert before + lines == before;
    } else {
      var now, e := before + [lines[0]], Effect(before, lines[0]);
      assert before + lines == now + lines[1..];
      SplicedBy(before, lines[0]);
      DeeperIs(groups, e, holds(|before|));
      LeftIs(lines[1..], holds, now, L.After(groups, e, holds(|before|)));
    }
  }

  lemma SplicedBy(before: seq<string>, line: string)
    ensures Spliced(before + [line]) == Carries(Spliced(before), line)
  {
    hide Carries;
    var now := before + [line];
    assert now[..|now| - 1] == before;
  }

  lemma DeeperIs(groups: seq<L.Group>, e: L.Effect, holds: bool)
    ensures |L.After(groups, e, holds)| == Deeper(e, |groups|)
  {
  }

  lemma PastDirective(p: L.Part, holds: nat -> bool, before: seq<string>)
    requires !Continues(p.directive)
    ensures Closed(p.lines)
            <==> !Spliced(before + L.Lines(p)) && L.Past(Simple(holds), p, before, []) == []
  {
    hide Left, EffectOf, Effect, Spliced, L.Opened, TrimStart;
    var now := before + [p.directive];
    SplicedBy(before, p.directive);
    assert !Spliced(now);
    hide Carries;
    assert before + L.Lines(p) == now + p.lines;
    LeftIs(p.lines, holds, now, []);
  }

  /** Every tab but the last leaves nothing open. */
  predicate ClosedTabs(tabs: seq<Tab>) { forall k :: 0 <= k < |tabs| - 1 ==> Closed(TabLines(tabs[k])) }

  lemma ClosedBut(tabs: seq<Tab>)
    requires tabs != []
    ensures ClosedTabs(tabs) <==> (|tabs| > 1 ==> Closed(TabLines(tabs[0]))) && ClosedTabs(tabs[1..])
  {
    hide Closed, TabLines;
    var more := tabs[1..];
    forall k | 1 <= k < |tabs| - 1 && ClosedTabs(more) ensures Closed(TabLines(tabs[k])) {
      assert more[k - 1] == tabs[k];
    }
    forall k | 0 <= k < |more| - 1 && ClosedTabs(tabs) ensures Closed(TabLines(more[k])) {
      assert more[k] == tabs[k + 1];
    }
  }

  /** The parts are shut exactly when their tabs are closed. */
  lemma {:induction false} ShutTabs(tabs: seq<Tab>, holds: nat -> bool, before: seq<string>, groups: seq<L.Group>)
    requires AllNameable(tabs)
    ensures L.Shut(Simple(holds), PartsOf(tabs), before, groups)
            <==> (tabs != [] ==> !Spliced(before) && groups == []) && ClosedTabs(tabs)
    decreases |tabs|
  {
    if tabs != [] {
      var p, more := PartOf(tabs[0]), tabs[1..];
      assert Nameable(tabs[0].shown) && AllNameable(more);
      DirectiveReads(tabs[0].shown);
      PastDirective(p, holds, before);
      hide Closed, Spliced, L.Past, Nameable, Directive, TabLines, Continues, IsLineDirective, Quoted, Number;
      hide AllNameable;
      ShutTabs(more, holds, before + L.Lines(p), L.Past(Simple(holds), p, before, groups));
      ClosedBut(tabs);
    }
  }

  /** Read so, every line of every tab is where it is meant to be whatever conditions are true
      exactly when the prelude and each tab but the last, taken alone, ends no blank line in
      a backslash and closes the groups it opens. */
  lemma TabByTab(tabs: seq<Tab>, arduino: bool, prototypes: seq<string>, generated: string)
    requires AllNameable(tabs) && Declarable(prototypes) && tabs != []
    requires NoLineDirective(Declarations(prototypes))
    requires forall k :: 0 <= k < |tabs| ==> NoLineDirective(TabLines(tabs[k]))
    ensures var includes := Firsts(AllIncludes(Contents(tabs)));
            var pre := PreludeLines(arduino, includes, prototypes);
            var text := Output(tabs, Prelude(arduino, includes, prototypes));
            (forall holds :: Presumed(Simple(holds), text, generated)
                             == L.Numbered(generated, pre, 1) + L.Meant(PartsOf(tabs)))
            <==> Closed(pre) && ClosedTabs(tabs)
  {
    var r, includes := Simple(L.Never), Firsts(AllIncludes(Contents(tabs)));
    var pre := PreludeLines(arduino, includes, prototypes);
    AllAreHoisted(Contents(tabs));
    FirstsAreFirst(AllIncludes(Contents(tabs)), 0);
    PreludeShape(arduino, includes, prototypes);
    SimpleIsHonest(L.Never);
    SimpleUnnamed(pre, L.Never);
    forall k | 0 <= k < |tabs| ensures Unnamed(r, TabLines(tabs[k])) { SimpleUnnamed(TabLines(tabs[k]), L.Never); }
    hide Hoisted, AllIncludes, Firsts, Prelude, PreludeLines, Honest, AllNameable, Unnamed, L.Shut, Spliced, TabLines;
    hide Declarable, NoLineDirective, ClosedTabs, Presumed, Output, L.Numbered, L.Meant;
    GeneratedLocations(r, tabs, arduino, prototypes, generated);
    ShutTabs(tabs, L.Never, pre, L.Opened(r, pre, [], []));
    LeftIs(pre, L.Never, [], []);
    assert [] + pre == pre;
    forall holds ensures L.Given(r, holds) == Simple(holds) { }
  }

  lemma SimpleUnnamed(lines: seq<string>, holds: nat -> bool)
    requires NoLineDirective(lines)
    ensures Unnamed(Simple(holds), lines)
  {
  }

  /** A tab that opens a group and leaves its `#endif` to the next, and one that ends in a
      backslash, leave something open; a blank line with a backslash does not. */
  lemma OpenTabs()
    ensures !Closed(["#if 0"]) && Closed(["#if 0", "#endif"])
    ensures !Closed(["x\\"]) && Closed(["\\"])
  {
    GroupOpens();
    OneLine("x\\");
    OneLine("\\");
    assert "x\\"[..1] == ['x'] && "\\"[..0] == [];
  }

  lemma OneLine(line: string)
    requires TrimStart(line) == line && (line != [] ==> line[0] != '#')
    ensures Closed([line]) <==> !Carries(false, line)
  {
    hide Carries;
    assert EffectOf(line) == L.Nothing;
    hide EffectOf;
    var one, none: seq<string> := [line], [];
    assert one[1..] == none;
    assert Left(none, Carries(false, line), 0) == (Carries(false, line), 0);
    assert Left(one, false, 0) == Left(one[1..], Carries(false, one[0]), Deeper(EffectOf(one[0]), 0));
  }

  lemma GroupOpens()
    ensures !Closed(["#if 0"]) && Closed(["#if 0", "#endif"])
  {
    IfOpens();
    EndIfCloses();
    hide EffectOf, Carries;
    var a, b := "#if 0", "#endif";
    var none: seq<string> := [];
    assert [a][1..] == none && [a, b][1..] == [b] && [b][1..] == none;
  }

  lemma IfOpens()
    ensures EffectOf("#if 0") == L.If && !Carries(false, "#if 0")
  {
    var a := "#if 0";
    assert a == ['#'] + ['i', 'f', ' ', '0'];
    assert a[1..] == ['i', 'f', ' ', '0'];
    assert a[1..][1..] == ['f', ' ', '0'] && a[1..][1..][1..] == [' ', '0'];
    assert Word([' ', '0']) == [];
    assert Word(['f', ' ', '0']) == ['f'];
    assert Keyword(a) == "if";
  }

  lemma EndIfCloses()
    ensures EffectOf("#endif") == L.EndIf && !Carries(false, "#endif")
  {
    var b := "#endif";
    assert b == ['#'] + ['e', 'n', 'd', 'i', 'f'];
    assert b[1..] == ['e', 'n', 'd', 'i', 'f'];
    assert Word([]) == [];
    assert b[1..][1..] == ['n', 'd', 'i', 'f'] && b[1..][1..][1..] == ['d', 'i', 'f'];
    assert b[1..][1..][1..][1..] == ['i', 'f'] && b[1..][1..][1..][1..][1..] == ['f'] && ['f'][1..] == [];
    assert Word(['f']) == ['f'];
    assert Word(['i', 'f']) == ['i', 'f'];
    assert Word(['d', 'i', 'f']) == ['d', 'i', 'f'];
    assert Keyword(b) == "endif";
  }
}

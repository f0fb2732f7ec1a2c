// How a C preprocessor numbers lines: the conditional groups of section 6.10.1 of ISO C11 and
// the line control of section 6.10.4, over a file made of one `#line` directive per part.
module Locations {
  import T = Text

  /** A line of text and where the preprocessor presumes it to be. */
  datatype Located = Located(file: string, line: nat, text: string)

  /** What a line does as a directive, if it is one that matters here. */
  datatype Effect = Nothing | If | Elif | Else | EndIf | Renames(file: string, line: nat)

  /** A lexer, and the truth of the conditions it meets. A line can be a directive though a
      comment stands before it, and fail to be one inside a comment or a literal. */
  datatype Reader = Reader(
    begun: seq<string> -> bool,              // a comment, a literal or a line with a token in it is still open
    effect: (seq<string>, string) -> Effect, // what the line does after those before it
    holds: nat -> bool)                      // the condition on the n-th line is true

  /** The group of an if section that is being read: whether its lines are, and whether this
      group or one before it was chosen. */
  datatype Group = Group(active: bool, taken: bool)

  predicate Skipping(groups: seq<Group>) { groups != [] && !groups[0].active }

  /** The open groups, innermost first, after a directive. */
  function After(groups: seq<Group>, e: Effect, holds: bool): seq<Group> {
    match e
    case If => [Group(!Skipping(groups) && holds, holds)] + groups
    case Elif =>
      if groups == [] then []
      else [Group(!Skipping(groups[1..]) && !groups[0].taken && holds, groups[0].taken || holds)] + groups[1..]
    case Else =>
      if groups == [] then [] else [Group(!Skipping(groups[1..]) && !groups[0].taken, true)] + groups[1..]
    case EndIf => if groups == [] then [] else groups[1..]
    case _ => groups
  }

  function Opened(r: Reader, lines: seq<string>, before: seq<string>, groups: seq<Group>): seq<Group> {
    if lines == [] then groups
    else Opened(r, lines[1..], before + [lines[0]], After(groups, r.effect(before, lines[0]), r.holds(|before|)))
  }

  /** The lines after `before`: one that renames gives the next line its place, unless it is in
      a skipped group; every other line is numbered. */
  function Read(r: Reader, lines: seq<string>, before: seq<string>, groups: seq<Group>, file: string, line: nat)
    : seq<Located>
  {
    if lines == [] then []
    else
      var e := r.effect(before, lines[0]);
      if e.Renames? && !Skipping(groups) then Read(r, lines[1..], before + [lines[0]], groups, e.file, e.line)
      else [Located(file, line, lines[0])]
           + Read(r, lines[1..], before + [lines[0]], After(groups, e, r.holds(|before|)), file, line + 1)
  }

  /** One part of a file: the text of its directive, the file that names, and its lines. */
  datatype Part = Part(file: string, directive: string, lines: seq<string>)

  function Lines(p: Part): seq<string> { [p.directive] + p.lines }

  function Whole(parts: seq<Part>): seq<string> {
    if parts == [] then [] else Lines(parts[0]) + Whole(parts[1..])
  }

  /** No line is a line directive. */
  predicate Quiet(r: Reader, lines: seq<string>, before: seq<string>) {
    lines == [] || (!r.effect(before, lines[0]).Renames? && Quiet(r, lines[1..], before + [lines[0]]))
  }

  /** The directive of a part names line 1 of its file wherever a directive can start, and no
      other line of it is a line directive. */
  predicate Sound(r: Reader, p: Part, before: seq<string>) {
    && r.effect(before, p.directive) == (if r.begun(before) then Nothing else Renames(p.file, 1))
    && Quiet(r, p.lines, before + [p.directive])
  }

  predicate AllSound(r: Reader, parts: seq<Part>, before: seq<string>) {
    parts == [] || (Sound(r, parts[0], before) && AllSound(r, parts[1..], before + Lines(parts[0])))
  }

  /** Each line at its place in `file`, counting from `first`. */
  function Numbered(file: string, lines: seq<string>, first: nat): (r: seq<Located>)
    ensures |r| == |lines|
  {
    if lines == [] then [] else [Located(file, first, lines[0])] + Numbered(file, lines[1..], first + 1)
  }

  /** What is meant: line `j` of a part at line `j` of the file it names. */
  function Meant(parts: seq<Part>): seq<Located> {
    if parts == [] then [] else Numbered(parts[0].file, parts[0].lines, 1) + Meant(parts[1..])
  }

  /** The groups open after a part. */
  function Past(r: Reader, p: Part, before: seq<string>, groups: seq<Group>): seq<Group> {
    Opened(r, p.lines, before + [p.directive], groups)
  }

  /** Every directive is heard: nothing is open before it and no group is skipped. */
  predicate Heard(r: Reader, parts: seq<Part>, before: seq<string>, groups: seq<Group>) {
    parts == [] || (!r.begun(before) && !Skipping(groups)
                    && Heard(r, parts[1..], before + Lines(parts[0]), Past(r, parts[0], before, groups)))
  }

  /** Nothing is open before any directive, no group either. */
  predicate Shut(r: Reader, parts: seq<Part>, before: seq<string>, groups: seq<Group>) {
    parts == [] || (!r.begun(before) && groups == []
                    && Shut(r, parts[1..], before + Lines(parts[0]), Past(r, parts[0], before, groups)))
  }

  /** Lines that are no line directives are numbered on, whatever follows. */
  lemma {:induction false} ReadText(r: Reader, lines: seq<string>, more: seq<string>, before: seq<string>,
                                    groups: seq<Group>, file: string, line: nat)
    requires Quiet(r, lines, before)
    ensures Read(r, lines + more, before, groups, file, line) ==
            Numbered(file, lines, line)
              + Read(r, more, before + lines, Opened(r, lines, before, groups), file, line + |lines|)
  {
    hide After;
    if lines == [] {
      assert lines + more == more && before + lines == before;
      var tail := Read(r, more, before, groups, file, line);
      assert [] + tail == tail;
    } else {
      var first, now := lines[0], before + [lines[0]];
      assert (lines + more)[1..] == lines[1..] + more && before + lines == now + lines[1..];
      var after := After(groups, r.effect(before, first), r.holds(|before|));
      ReadText(r, lines[1..], more, now, after, file, line + 1);
      T.Associate([Located(file, line, first)], Numbered(file, lines[1..], line + 1),
                  Read(r, more, before + lines, Opened(r, lines, before, groups), file, line + |lines|));
    }
  }

  lemma FirstHeard(r: Reader, parts: seq<Part>, before: seq<string>, groups: seq<Group>, file: string, line: nat)
    requires parts != [] && Sound(r, parts[0], before) && !r.begun(before) && !Skipping(groups)
    ensures Read(r, Whole(parts), before, groups, file, line)
         == Numbered(parts[0].file, parts[0].lines, 1)
              + Read(r, Whole(parts[1..]), before + Lines(parts[0]), Past(r, parts[0], before, groups),
                     parts[0].file, 1 + |parts[0].lines|)
  {
    hide Opened, Numbered, After, Quiet;
    var p, more := parts[0], Whole(parts[1..]);
    Split(p, before, more);
    assert Whole(parts)[0] == p.directive && Whole(parts)[1..] == p.lines + more;
    ReadText(r, p.lines, more, before + [p.directive], groups, p.file, 1);
  }

  lemma Split(p: Part, before: seq<string>, more: seq<string>)
    ensures Lines(p) + more == [p.directive] + (p.lines + more)
    ensures before + Lines(p) == before + [p.directive] + p.lines
  {
  }

  /** A directive that is not heard is one more line of the file before. */
  lemma FirstSwallowed(r: Reader, parts: seq<Part>, before: seq<string>, groups: seq<Group>, file: string, line: nat)
    requires parts != [] && Sound(r, parts[0], before) && (r.begun(before) || Skipping(groups))
    ensures Read(r, Whole(parts), before, groups, file, line)
         == [Located(file, line, parts[0].directive)]
              + (Numbered(file, parts[0].lines, line + 1)
              + Read(r, Whole(parts[1..]), before + Lines(parts[0]), Past(r, parts[0], before, groups),
                     file, line + 1 + |parts[0].lines|))
  {
    hide Opened, Numbered, Quiet;
    var p, more := parts[0], Whole(parts[1..]);
    Split(p, before, more);
    assert Whole(parts)[0] == p.directive && Whole(parts)[1..] == p.lines + more;
    ReadText(r, p.lines, more, before + [p.directive], groups, file, line + 1);
  }

  lemma MeantFirst(parts: seq<Part>)
    requires parts != []
    ensures Meant(parts) == Numbered(parts[0].file, parts[0].lines, 1) + Meant(parts[1..])
    ensures |Meant(parts)| == |parts[0].lines| + |Meant(parts[1..])|
  {
  }

  lemma Longer<T>(whole: seq<T>, a: seq<T>, b: seq<T>, c: seq<T>)
    requires whole == a + (b + c)
    ensures |whole| == |a| + |b| + |c|
  {
  }

  /** Reading the parts from any point: at least the meant lines, and exactly them if and only
      if every directive is heard. */
  lemma {:induction false} WholeIsMeant(r: Reader, parts: seq<Part>, before: seq<string>, groups: seq<Group>,
                                        file: string, line: nat)
    requires AllSound(r, parts, before)
    ensures |Read(r, Whole(parts), before, groups, file, line)| >= |Meant(parts)|
    ensures Read(r, Whole(parts), before, groups, file, line) == Meant(parts) <==> Heard(r, parts, before, groups)
    decreases |parts|
  {
    if parts != [] {
      MeantFirst(parts);
      hide Read, Whole, Numbered, Meant, Opened, Past, Skipping, Sound, Lines;
      var more, n, now := parts[1..], |parts[0].lines|, before + Lines(parts[0]);
      var past := Past(r, parts[0], before, groups);
      if r.begun(before) || Skipping(groups) {
        FirstSwallowed(r, parts, before, groups, file, line);
        WholeIsMeant(r, more, now, past, file, line + 1 + n);
        Longer(Read(r, Whole(parts), before, groups, file, line), [Located(file, line, parts[0].directive)],
               Numbered(file, parts[0].lines, line + 1), Read(r, Whole(more), now, past, file, line + 1 + n));
      } else {
        FirstHeard(r, parts, before, groups, file, line);
        WholeIsMeant(r, more, now, past, parts[0].file, 1 + n);
        T.SameFront(Numbered(parts[0].file, parts[0].lines, 1),
                    Read(r, Whole(more), now, past, parts[0].file, 1 + n), Meant(more));
      }
    }
  }

  // ----- whatever the conditions ------------------------------------------------

  function Given(r: Reader, holds: nat -> bool): Reader { r.(holds := holds) }

  lemma {:induction false} SoundGiven(r: Reader, parts: seq<Part>, before: seq<string>, holds: nat -> bool)
    requires AllSound(r, parts, before)
    ensures AllSound(Given(r, holds), parts, before)
    decreases |parts|
  {
    if parts != [] {
      QuietGiven(r, parts[0].lines, before + [parts[0].directive], holds);
      SoundGiven(r, parts[1..], before + Lines(parts[0]), holds);
    }
  }

  lemma {:induction false} QuietGiven(r: Reader, lines: seq<string>, before: seq<string>, holds: nat -> bool)
    ensures Quiet(Given(r, holds), lines, before) == Quiet(r, lines, before)
    decreases |lines|
  {
    if lines != [] { QuietGiven(r, lines[1..], before + [lines[0]], holds); }
  }

  /** How many groups are open does not depend on the conditions. */
  lemma {:induction false} SameDepth(r: Reader, lines: seq<string>, before: seq<string>, a: seq<Group>, b: seq<Group>,
                                     holds: nat -> bool)
    requires |a| == |b|
    ensures |Opened(r, lines, before, a)| == |Opened(Given(r, holds), lines, before, b)|
    decreases |lines|
  {
    if lines != [] {
      var e := r.effect(before, lines[0]);
      SameDepth(r, lines[1..], before + [lines[0]], After(a, e, r.holds(|before|)), After(b, e, holds(|before|)),
                holds);
    }
  }

  lemma {:induction false} ShutIsHeard(r: Reader, parts: seq<Part>, before: seq<string>, a: seq<Group>, b: seq<Group>,
                                       holds: nat -> bool)
    requires Shut(r, parts, before, a) && |a| == |b|
    ensures Heard(Given(r, holds), parts, before, b)
    decreases |parts|
  {
    if parts != [] {
      hide Opened;
      SameDepth(r, parts[0].lines, before + [parts[0].directive], a, b, holds);
      ShutIsHeard(r, parts[1..], before + Lines(parts[0]), Past(r, parts[0], before, a),
                  Past(Given(r, holds), parts[0], before, b), holds);
    }
  }

  function Never(n: nat): bool { false }

  function Always(n: nat): bool { true }

  /** Of two readings side by side, one skips every open group and the other has a group
      taken in each section. */
  predicate Opposed(f: seq<Group>, t: seq<Group>) {
    |f| == |t| && forall i :: 0 <= i < |f| ==> (!f[i].active || !t[i].active) && t[i].taken
  }

  lemma OpposedAfter(f: seq<Group>, t: seq<Group>, e: Effect)
    requires Opposed(f, t)
    ensures Opposed(After(f, e, false), After(t, e, true))
  {
  }

  lemma {:induction false} OpposedText(r: Reader, lines: seq<string>, before: seq<string>, f: seq<Group>, t: seq<Group>)
    requires Opposed(f, t)
    ensures Opposed(Opened(Given(r, Never), lines, before, f), Opened(Given(r, Always), lines, before, t))
    decreases |lines|
  {
    if lines != [] {
      hide After;
      var e := r.effect(before, lines[0]);
      OpposedAfter(f, t, e);
      OpposedText(r, lines[1..], before + [lines[0]], After(f, e, false), After(t, e, true));
    }
  }

  /** If something is open before a directive it is not heard when all conditions are true, or
      not when all are false. */
  lemma {:induction false} UnshutIsUnheard(r: Reader, parts: seq<Part>, before: seq<string>, a: seq<Group>,
                                           f: seq<Group>, t: seq<Group>)
    requires !Shut(r, parts, before, a) && Opposed(f, t) && |a| == |f|
    ensures !Heard(Given(r, Never), parts, before, f) || !Heard(Given(r, Always), parts, before, t)
    decreases |parts|
  {
    if !r.begun(before) && a == [] {
      hide Opened;
      var p, now := parts[0], before + [parts[0].directive];
      SameDepth(r, p.lines, now, a, f, Never);
      OpposedText(r, p.lines, now, f, t);
      UnshutIsUnheard(r, parts[1..], before + Lines(p), Past(r, p, before, a), Past(Given(r, Never), p, before, f),
                      Past(Given(r, Always), p, before, t));
    }
  }

  /** A file of some lines and then parts, read with given conditions. */
  function Places(r: Reader, holds: nat -> bool, lines: seq<string>, parts: seq<Part>, file: string): seq<Located> {
    Read(Given(r, holds), lines + Whole(parts), [], [], file, 1)
  }

  lemma PlacesMeant(r: Reader, holds: nat -> bool, lines: seq<string>, parts: seq<Part>, file: string)
    requires Quiet(r, lines, []) && AllSound(r, parts, lines)
    ensures Places(r, holds, lines, parts, file) == Numbered(file, lines, 1) + Meant(parts)
            <==> Heard(Given(r, holds), parts, lines, Opened(Given(r, holds), lines, [], []))
  {
    hide Read, Whole, Numbered, Meant, Opened, Heard, Quiet, AllSound;
    var g := Given(r, holds);
    QuietGiven(r, lines, [], holds);
    SoundGiven(r, parts, lines, holds);
    ReadText(g, lines, Whole(parts), [], [], file, 1);
    assert [] + lines == lines;
    WholeIsMeant(g, parts, lines, Opened(g, lines, [], []), file, 1 + |lines|);
    T.SameFront(Numbered(file, lines, 1),
                Read(g, Whole(parts), lines, Opened(g, lines, [], []), file, 1 + |lines|), Meant(parts));
  }

  /** Every line of every part is where it is meant to be, whatever conditions are true, if and
      only if no comment, literal, unfinished line or conditional group is open before any
      directive. */
  lemma PlacesMeantAlways(r: Reader, lines: seq<string>, parts: seq<Part>, file: string)
    requires Quiet(r, lines, []) && AllSound(r, parts, lines)
    ensures (forall holds :: Places(r, holds, lines, parts, file) == Numbered(file, lines, 1) + Meant(parts))
            <==> Shut(r, parts, lines, Opened(r, lines, [], []))
  {
    hide Read, Whole, Numbered, Meant, Opened, Heard, Quiet, AllSound, Shut, Places;
    var a := Opened(r, lines, [], []);
    if Shut(r, parts, lines, a) {
      forall holds ensures Places(r, holds, lines, parts, file) == Numbered(file, lines, 1) + Meant(parts) {
        SameDepth(r, lines, [], [], [], holds);
        ShutIsHeard(r, parts, lines, a, Opened(Given(r, holds), lines, [], []), holds);
        PlacesMeant(r, holds, lines, parts, file);
      }
    } else {
      var f, t := Opened(Given(r, Never), lines, [], []), Opened(Given(r, Always), lines, [], []);
      SameDepth(r, lines, [], [], [], Never);
      OpposedText(r, lines, [], [], []);
      UnshutIsUnheard(r, parts, lines, a, f, t);
      PlacesMeant(r, Never, lines, parts, file);
      PlacesMeant(r, Always, lines, parts, file);
    }
  }

  lemma {:induction false} NumberedAt(file: string, lines: seq<string>, first: nat, j: nat)
    requires j < |lines|
    ensures Numbered(file, lines, first)[j] == Located(file, first + j, lines[j])
  {
    if j > 0 { NumberedAt(file, lines[1..], first + 1, j - 1); }
  }

  /** Line `j` of part `k` is among the meant locations, at line `j` of its file. */
  lemma {:induction false} LineIsMeant(parts: seq<Part>, k: nat, j: nat)
    requires k < |parts| && j < |parts[k].lines|
    ensures Located(parts[k].file, j + 1, parts[k].lines[j]) in Meant(parts)
  {
    if k == 0 {
      NumberedAt(parts[0].file, parts[0].lines, 1, j);
      assert Numbered(parts[0].file, parts[0].lines, 1)[j] in Meant(parts);
    } else {
      LineIsMeant(parts[1..], k - 1, j);
    }
  }
}

// Make-syntax dependency files: the parser of compiler.rs and a printer for the
// files gcc writes, with the exact condition under which they are inverse.
module Depfile {
  import opened Text

  // ----- the parser -----------------------------------------------------------

  /** One `str::replace` of every backslash-newline by a blank, leftmost first. */
  function JoinLines(s: string, crlf: bool): string {
    if s == [] then []
    else if crlf && |s| >= 3 && s[0] == '\\' && s[1] == '\r' && s[2] == '\n' then [' '] + JoinLines(s[3..], crlf)
    else if !crlf && |s| >= 2 && s[0] == '\\' && s[1] == '\n' then [' '] + JoinLines(s[2..], crlf)
    else [s[0]] + JoinLines(s[1..], crlf)
  }

  /** Continuations become blanks, CRLF ones first. */
  function JoinContinuations(text: string): string {
    JoinLines(JoinLines(text, true), false)
  }

  /** Everything after the first colon that an ASCII blank follows; else all of it. */
  function DependenciesSection(contents: string): string {
    SectionFrom(contents, 0)
  }

  function SectionFrom(contents: string, i: nat): string
    requires i <= |contents|
    decreases |contents| - i
  {
    if i + 1 >= |contents| then contents
    else if contents[i] == ':' && IsAsciiWhitespace(contents[i + 1]) then contents[i + 1..]
    else SectionFrom(contents, i + 1)
  }

  /** Length of the longest prefix without white space. */
  function WordLength(s: string): (n: nat)
    ensures n <= |s|
    ensures NoWhitespace(s[..n])
    ensures n < |s| ==> IsWhitespace(s[n])
  {
    if s == [] || IsWhitespace(s[0]) then 0 else 1 + WordLength(s[1..])
  }

  /** `str::split_whitespace`. */
  function Words(s: string): (r: seq<string>)
    ensures forall i :: 0 <= i < |r| ==> r[i] != [] && NoWhitespace(r[i])
    decreases |s|
  {
    if s == [] then []
    else if IsWhitespace(s[0]) then Words(s[1..])
    else [s[..WordLength(s)]] + Words(s[WordLength(s)..])
  }

  /** The prerequisites a dependency file lists. */
  function Parse(text: string): seq<string> {
    Words(DependenciesSection(JoinContinuations(text)))
  }

  /** Unescaping `\ ` inside a word changes nothing: words hold no blank. */
  lemma {:induction false} UnescapeWordIsIdentity(word: string, pattern: string, with: string)
    requires NoWhitespace(word) && |pattern| == 2 && IsWhitespace(pattern[1])
    ensures ReplaceAll(word, pattern, with) == word
  {
    if word != [] {
      assert |word| > 1 ==> word[1] != pattern[1];
      UnescapeWordIsIdentity(word[1..], pattern, with);
    }
  }

  /** The loop of `parse_depfile_paths`: unescape each word, keep the non-empty ones. */
  method ParseDepfilePaths(text: string) returns (paths: seq<string>)
    ensures paths == Parse(text)
  {
    var tokens := Words(DependenciesSection(JoinContinuations(text)));
    paths := [];
    var i := 0;
    while i < |tokens|
      invariant 0 <= i <= |tokens|
      invariant paths == tokens[..i]
    {
      var unescaped := ReplaceAll(tokens[i], "\\ ", " ");
      UnescapeWordIsIdentity(tokens[i], "\\ ", " ");
      if unescaped != [] {
        paths := paths + [unescaped];
      }
      i := i + 1;
    }
  }

  // ----- the printer ----------------------------------------------------------

  /** What separates two words of a rule; `Newline` ends it. */
  datatype Piece = Word(text: string) | Blank | Tab | Wrap(crlf: bool) | Newline(crlf: bool)

  datatype Entry = Entry(gap: seq<Piece>, path: string)

  datatype LineEnd = NoEnd | Lf | CrLf

  function Show(p: Piece): string {
    match p
    case Word(t) => t
    case Blank => " "
    case Tab => "\t"
    case Wrap(crlf) => if crlf then "\\\r\n" else "\\\n"
    case Newline(crlf) => if crlf then "\r\n" else "\n"
  }

  function ShowAll(ps: seq<Piece>): string {
    if ps == [] then [] else Show(ps[0]) + ShowAll(ps[1..])
  }

  /** A blank, or backslashes and then a blank. */
  predicate BeforeBlank(s: string) {
    s != [] && (s[0] == ' ' || s[0] == '\t' || (s[0] == '\\' && BeforeBlank(s[1..])))
  }

  /** How gcc quotes a file name for make: blanks and `#` take a backslash, backslashes before
      a blank double, and so does `$`. */
  function Escape(path: string): string {
    if path == [] then []
    else
      (if path[0] == '\\' && BeforeBlank(path) then "\\\\"
       else if path[0] == ' ' || path[0] == '\t' || path[0] == '#' then ['\\', path[0]]
       else if path[0] == '$' then "$$" else [path[0]]) + Escape(path[1..])
  }

  predicate IsGap(gap: seq<Piece>) {
    gap != [] && forall i :: 0 <= i < |gap| ==> gap[i].Blank? || gap[i].Tab? || gap[i].Wrap?
  }

  function EntryPieces(deps: seq<Entry>): seq<Piece> {
    if deps == [] then [] else deps[0].gap + [Word(Escape(deps[0].path))] + EntryPieces(deps[1..])
  }

  function EndPieces(end: LineEnd): seq<Piece> {
    match end case NoEnd => [] case Lf => [Newline(false)] case CrLf => [Newline(true)]
  }

  function Paths(deps: seq<Entry>): (r: seq<string>)
    ensures |r| == |deps| && forall i :: 0 <= i < |r| ==> r[i] == deps[i].path
  {
    seq(|deps|, i requires 0 <= i < |deps| => deps[i].path)
  }

  /** The rule `target: deps`, with any gaps between the escaped words. */
  function Print(target: string, deps: seq<Entry>, end: LineEnd): string {
    ShowAll([Word(target + ":")] + EntryPieces(deps) + EndPieces(end))
  }

  // ----- the round trip -------------------------------------------------------

  /** Words are clean and non-empty, never adjacent, and no newline follows a backslash. */
  predicate WellFormed(ps: seq<Piece>) {
    ps != [] ==>
      && WellFormed(ps[1..])
      && (ps[0].Word? ==>
            && ps[0].text != [] && NoWhitespace(ps[0].text)
            && (|ps| > 1 ==>
                  && !ps[1].Word?
                  && (ps[1].Newline? ==> ps[0].text[|ps[0].text| - 1] != '\\')))
  }

  function Joined(p: Piece, crlf: bool): Piece {
    if p == Wrap(crlf) then Blank else p
  }

  function JoinedAll(ps: seq<Piece>, crlf: bool): seq<Piece> {
    if ps == [] then [] else [Joined(ps[0], crlf)] + JoinedAll(ps[1..], crlf)
  }

  function WordsOf(ps: seq<Piece>): seq<string> {
    if ps == [] then []
    else (if ps[0].Word? then [ps[0].text] else []) + WordsOf(ps[1..])
  }

  /** A clean word passes through unless a newline follows its final backslash. */
  lemma {:induction false} JoinSkipsWord(w: string, rest: string, crlf: bool)
    requires NoWhitespace(w)
    requires rest == [] || (rest[0] != '\r' && rest[0] != '\n') || w == [] || w[|w| - 1] != '\\'
    ensures JoinLines(w + rest, crlf) == w + JoinLines(rest, crlf)
  {
    if w == [] {
      assert w + rest == rest;
    } else {
      var s := w + rest;
      assert s[1..] == w[1..] + rest;
      assert |s| > 1 ==> s[1] == (if |w| > 1 then w[1] else rest[0]);
      JoinSkipsWord(w[1..], rest, crlf);
      Associate([w[0]], w[1..], JoinLines(rest, crlf));
      assert w == [w[0]] + w[1..];
    }
  }

  lemma JoinAtNewline(rest: string, crlf: bool)
    ensures JoinLines(['\n'] + rest, crlf) == ['\n'] + JoinLines(rest, crlf)
  {
    assert (['\n'] + rest)[1..] == rest;
  }

  /** A separator becomes a blank if it is a continuation of this kind, else it stays. */
  lemma JoinAtGap(p: Piece, rest: string, crlf: bool)
    requires !p.Word? && (!crlf ==> p != Wrap(true))
    ensures JoinLines(Show(p) + rest, crlf) == Show(Joined(p, crlf)) + JoinLines(rest, crlf)
  {
    var s := Show(p) + rest;
    match p
    case Blank => assert s[1..] == rest;
    case Tab => assert s[1..] == rest;
    case Newline(c) =>
      JoinAtNewline(rest, crlf);
      var t := ['\n'] + rest;
      assert if c then s[1..] == t else s == t;
    case Wrap(c) =>
      JoinAtNewline(rest, crlf);
      var t := ['\n'] + rest;
      assert if c then s[3..] == rest else s[2..] == rest && s[1..] == t;
  }

  /** One replacement pass turns exactly the matching continuations into blanks. */
  lemma {:induction false} JoinPass(ps: seq<Piece>, crlf: bool)
    requires WellFormed(ps)
    requires !crlf ==> forall i :: 0 <= i < |ps| ==> ps[i] != Wrap(true)
    ensures JoinLines(ShowAll(ps), crlf) == ShowAll(JoinedAll(ps, crlf))
  {
    if ps != [] {
      JoinPass(ps[1..], crlf);
      var rest := ShowAll(ps[1..]);
      if ps[0].Word? {
        FirstChar(ps[1..]);
        JoinSkipsWord(ps[0].text, rest, crlf);
      } else {
        JoinAtGap(ps[0], rest, crlf);
      }
    }
  }

  /** What the text after a word starts with. */
  lemma FirstChar(ps: seq<Piece>)
    requires ps != [] ==> !ps[0].Word?
    ensures ShowAll(ps) == [] <==> ps == []
    ensures ps != [] ==> IsAsciiWhitespace(ShowAll(ps)[0]) || (ps[0].Wrap? && ShowAll(ps)[0] == '\\')
    ensures ps != [] && !ps[0].Newline? ==> ShowAll(ps)[0] != '\r' && ShowAll(ps)[0] != '\n'
  {
    if ps != [] {
      assert ShowAll(ps)[0] == Show(ps[0])[0];
    }
  }

  lemma {:induction false} JoinedKeepsShape(ps: seq<Piece>, crlf: bool)
    requires WellFormed(ps)
    ensures WellFormed(JoinedAll(ps, crlf)) && |JoinedAll(ps, crlf)| == |ps|
    ensures WordsOf(JoinedAll(ps, crlf)) == WordsOf(ps)
    ensures forall i :: 0 <= i < |ps| ==> JoinedAll(ps, crlf)[i] == Joined(ps[i], crlf)
  {
    if ps != [] {
      JoinedKeepsShape(ps[1..], crlf);
      var js := JoinedAll(ps, crlf);
      assert js[1..] == JoinedAll(ps[1..], crlf);
      assert forall i :: 0 < i < |ps| ==> js[i] == js[1..][i - 1];
    }
  }

  lemma {:induction false} WordLengthOf(w: string, rest: string)
    requires NoWhitespace(w)
    requires rest == [] || IsWhitespace(rest[0])
    ensures WordLength(w + rest) == |w|
  {
    if w == [] {
      assert w + rest == rest;
    } else {
      assert (w + rest)[1..] == w[1..] + rest;
      WordLengthOf(w[1..], rest);
    }
  }

  lemma WordThenRest(w: string, rest: string)
    requires w != [] && NoWhitespace(w)
    requires rest == [] || IsWhitespace(rest[0])
    ensures Words(w + rest) == [w] + Words(rest)
  {
    WordLengthOf(w, rest);
    assert (w + rest)[..|w|] == w;
    assert (w + rest)[|w|..] == rest;
  }

  lemma GapThenRest(p: Piece, rest: string)
    requires !p.Word? && !p.Wrap?
    ensures Words(Show(p) + rest) == Words(rest)
  {
    var s := Show(p) + rest;
    var t := ['\n'] + rest;
    assert t[1..] == rest;
    assert s[1..] == (if p == Newline(true) then t else rest);
    assert Words(t) == Words(rest);
  }

  lemma {:induction false} WordsOfShown(ps: seq<Piece>)
    requires WellFormed(ps)
    requires forall i :: 0 <= i < |ps| ==> !ps[i].Wrap?
    ensures Words(ShowAll(ps)) == WordsOf(ps)
  {
    if ps != [] {
      WordsOfShown(ps[1..]);
      if ps[0].Word? {
        FirstChar(ps[1..]);
        WordThenRest(ps[0].text, ShowAll(ps[1..]));
      } else {
        GapThenRest(ps[0], ShowAll(ps[1..]));
      }
    }
  }

  /** The section split finds the colon that ends the target, wherever other colons are. */
  lemma {:induction false} SectionAfterTarget(head: string, rest: string, i: nat)
    requires head != [] && NoWhitespace(head) && head[|head| - 1] == ':'
    requires rest != [] && IsAsciiWhitespace(rest[0])
    requires i < |head|
    ensures SectionFrom(head + rest, i) == rest
    decreases |head| - i
  {
    var s := head + rest;
    if i == |head| - 1 {
      assert s[i + 1] == rest[0];
      assert s[i + 1..] == rest;
    } else {
      assert s[i + 1] == head[i + 1];
      SectionAfterTarget(head, rest, i + 1);
    }
  }

  /** Both passes over a rule leave its head alone and turn every continuation into a blank. */
  lemma JoinRule(head: string, ps: seq<Piece>) returns (rest: seq<Piece>)
    requires head != [] && NoWhitespace(head)
    requires ps != [] && WellFormed([Word(head)] + ps)
    ensures JoinContinuations(ShowAll([Word(head)] + ps)) == head + ShowAll(rest)
    ensures WellFormed(rest) && WordsOf(rest) == WordsOf(ps)
    ensures rest != [] && !rest[0].Word? && forall i :: 0 <= i < |rest| ==> !rest[i].Wrap?
  {
    var all := [Word(head)] + ps;
    assert all[1..] == ps;
    var once := JoinedAll(all, true);
    var twice := JoinedAll(once, false);
    JoinPass(all, true);
    JoinedKeepsShape(all, true);
    JoinPass(once, false);
    JoinedKeepsShape(once, false);
    JoinedKeepsShape(ps, true);
    rest := twice[1..];
    assert once[1..] == JoinedAll(ps, true);
    assert rest == JoinedAll(JoinedAll(ps, true), false);
    JoinedKeepsShape(JoinedAll(ps, true), false);
    assert twice[0] == Word(head);
  }

  /** Parsing what any well-formed rule shows yields its words. */
  lemma ParseShown(head: string, ps: seq<Piece>)
    requires head != [] && NoWhitespace(head) && head[|head| - 1] == ':'
    requires ps != [] && WellFormed([Word(head)] + ps)
    ensures Parse(ShowAll([Word(head)] + ps)) == WordsOf(ps)
  {
    var rest := JoinRule(head, ps);
    FirstChar(rest);
    SectionAfterTarget(head, ShowAll(rest), 0);
    WordsOfShown(rest);
  }

  /** A path make prints as it is: no white space, no `#`, no `$`. */
  predicate Plain(path: string) {
    forall i :: 0 <= i < |path| ==> PlainChar(path[i])
  }

  predicate PlainChar(c: char) {
    !IsWhitespace(c) && c != '#' && c != '$'
  }

  /** Escaping changes a clean path exactly when it holds a `#` or a `$`. */
  lemma {:induction false} EscapeExact(path: string)
    requires NoWhitespace(path)
    ensures !BeforeBlank(path)
    ensures NoWhitespace(Escape(path)) && |Escape(path)| >= |path|
    ensures Escape(path) == path <==> Plain(path)
    ensures Plain(path) <==> |Escape(path)| == |path|
    ensures path != [] ==> Escape(path)[|Escape(path)| - 1] == path[|path| - 1]
  {
    if path != [] {
      EscapeExact(path[1..]);
      assert path == [path[0]] + path[1..];
      assert Plain(path) <==> PlainChar(path[0]) && Plain(path[1..]);
    }
  }

  predicate Printable(deps: seq<Entry>) {
    forall i :: 0 <= i < |deps| ==> IsGap(deps[i].gap) && deps[i].path != []
  }

  function EscapedPaths(deps: seq<Entry>): (r: seq<string>)
    ensures |r| == |deps|
    ensures forall i :: 0 <= i < |deps| ==> r[i] == Escape(deps[i].path)
  {
    seq(|deps|, i requires 0 <= i < |deps| => Escape(deps[i].path))
  }

  lemma {:induction false} GapPieces(gap: seq<Piece>, rest: seq<Piece>)
    requires gap == [] || IsGap(gap)
    requires WellFormed(rest)
    ensures WellFormed(gap + rest) && WordsOf(gap + rest) == WordsOf(rest)
  {
    if gap == [] {
      assert gap + rest == rest;
    } else {
      assert (gap + rest)[1..] == gap[1..] + rest;
      GapPieces(gap[1..], rest);
    }
  }

  lemma WordPieces(w: string, rest: seq<Piece>)
    requires w != [] && NoWhitespace(w) && WellFormed(rest)
    requires rest != [] ==> !rest[0].Word?
    requires rest != [] && rest[0].Newline? ==> w[|w| - 1] != '\\'
    ensures WellFormed([Word(w)] + rest) && WordsOf([Word(w)] + rest) == [w] + WordsOf(rest)
  {
    assert ([Word(w)] + rest)[1..] == rest;
  }

  /** The last path of a rule must not touch the newline with a backslash. */
  predicate EndsCleanly(deps: seq<Entry>, end: LineEnd) {
    deps != [] && end != NoEnd ==>
      var p := deps[|deps| - 1].path; p != [] && p[|p| - 1] != '\\'
  }

  /** A rule's tail: well formed, carrying `words`, safe to follow a word. */
  predicate Tail(ps: seq<Piece>, words: seq<string>, mayStartWithNewline: bool) {
    && WellFormed(ps) && WordsOf(ps) == words
    && (ps != [] ==> !ps[0].Word? && (ps[0].Newline? ==> mayStartWithNewline))
  }

  lemma EntryBefore(gap: seq<Piece>, word: string, more: seq<Piece>, words: seq<string>, newline: bool)
    requires IsGap(gap) && word != [] && NoWhitespace(word)
    requires Tail(more, words, newline)
    requires newline ==> word[|word| - 1] != '\\'
    ensures Tail(gap + [Word(word)] + more, [word] + words, false)
  {
    WordPieces(word, more);
    GapPieces(gap, [Word(word)] + more);
    assert gap + [Word(word)] + more == gap + ([Word(word)] + more);
  }

  lemma EndTail(end: LineEnd)
    ensures Tail(EndPieces(end), [], end != NoEnd)
  {
    if end != NoEnd { assert EndPieces(end)[1..] == []; }
  }

  lemma FirstEntryPieces(deps: seq<Entry>, more: seq<Piece>)
    requires deps != []
    ensures EntryPieces(deps) + more
         == deps[0].gap + [Word(Escape(deps[0].path))] + (EntryPieces(deps[1..]) + more)
  {
    hide *;
    FirstEntry(deps);
    Associate(deps[0].gap + [Word(Escape(deps[0].path))], EntryPieces(deps[1..]), more);
  }

  lemma FirstEscaped(deps: seq<Entry>)
    requires deps != []
    ensures EscapedPaths(deps) == [Escape(deps[0].path)] + EscapedPaths(deps[1..])
  {
    hide *;
    var r, tail := EscapedPaths(deps), EscapedPaths(deps[1..]);
    forall i | 0 < i < |r| ensures r[i] == tail[i - 1] {
      assert deps[1..][i - 1] == deps[i];
    }
  }

  lemma FirstEntry(deps: seq<Entry>)
    requires deps != []
    ensures EntryPieces(deps) == deps[0].gap + [Word(Escape(deps[0].path))] + EntryPieces(deps[1..])
  {
  }

  lemma FirstEntryShape(deps: seq<Entry>, end: LineEnd, more: seq<Piece>)
    requires deps != [] && Printable(deps) && EndsCleanly(deps, end) && NoWhitespace(deps[0].path)
    requires Tail(more, EscapedPaths(deps[1..]), deps[1..] == [] && end != NoEnd)
    ensures Tail(deps[0].gap + [Word(Escape(deps[0].path))] + more,
                 [Escape(deps[0].path)] + EscapedPaths(deps[1..]), false)
  {
    var d := deps[0];
    EscapeExact(d.path);
    EntryBefore(d.gap, Escape(d.path), more, EscapedPaths(deps[1..]), deps[1..] == [] && end != NoEnd);
  }

  /** The printed entries are well formed and carry the escaped paths. */
  lemma {:induction false} EntryPiecesShape(deps: seq<Entry>, end: LineEnd)
    requires Printable(deps) && EndsCleanly(deps, end)
    requires forall i :: 0 <= i < |deps| ==> NoWhitespace(deps[i].path)
    ensures Tail(EntryPieces(deps) + EndPieces(end), EscapedPaths(deps), deps == [] && end != NoEnd)
  {
    if deps == [] {
      EndTail(end);
      assert EntryPieces(deps) + EndPieces(end) == EndPieces(end);
    } else {
      EntryPiecesShape(deps[1..], end);
      FirstEntryShape(deps, end, EntryPieces(deps[1..]) + EndPieces(end));
      FirstEntryPieces(deps, EndPieces(end));
      FirstEscaped(deps);
    }
  }

  /** When no path holds white space, parsing returns the escaped spellings. */
  lemma ParsePrinted(target: string, deps: seq<Entry>, end: LineEnd)
    requires NoWhitespace(target) && Printable(deps) && EndsCleanly(deps, end)
    requires forall i :: 0 <= i < |deps| ==> NoWhitespace(deps[i].path)
    requires deps != [] || end != NoEnd
    ensures Parse(Print(target, deps, end)) == EscapedPaths(deps)
  {
    EntryPiecesShape(deps, end);
    var head := target + ":";
    var ps := EntryPieces(deps) + EndPieces(end);
    assert [Word(head)] + EntryPieces(deps) + EndPieces(end) == [Word(head)] + ps;
    WordPieces(head, ps);
    ParseShown(head, ps);
  }

  /** The round trip: printing then parsing returns the paths if and only if none needs quoting. */
  lemma RoundTrip(target: string, deps: seq<Entry>, end: LineEnd)
    requires NoWhitespace(target) && Printable(deps) && EndsCleanly(deps, end)
    requires deps != [] || end != NoEnd
    ensures Parse(Print(target, deps, end)) == Paths(deps)
            <==> forall i :: 0 <= i < |deps| ==> Plain(deps[i].path)
  {
    var parsed := Parse(Print(target, deps, end));
    if i :| 0 <= i < |deps| && !NoWhitespace(deps[i].path) {
      assert !Plain(deps[i].path);
      assert i < |parsed| ==> NoWhitespace(parsed[i]);
      assert Paths(deps)[i] == deps[i].path;
    } else {
      ParsePrinted(target, deps, end);
      forall i | 0 <= i < |deps|
        ensures EscapedPaths(deps)[i] == Paths(deps)[i] <==> Plain(deps[i].path)
      {
        EscapeExact(deps[i].path);
      }
    }
  }
}

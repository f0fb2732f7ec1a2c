// Rust source as a list of code characters, comments and literals, printed to text: what
// the blanker of Blanker must keep and erase, said without its scanner.
module RustSource {
  import opened Paths
  import opened Text
  import opened Blanker

  /** A stretch of a block comment: a character, or the start or end of a nested comment. */
  datatype Ink = Ch(c: char) | Open | Close

  /** A character of a string literal, escaped or not. */
  datatype Inner = Plain(c: char) | Escaped(c: char)

  /** The letter before the `r` of a raw string: none, `b` or, for a C string, `c`. */
  datatype Kind = Bare | Byte | C

  /** Lifetimes, labels, raw identifiers, suffixes and the `b` or `c` of a string that is not
      raw are code. `Stuck` is code too: a letter of such a word, close before a quote, where a
      literal would start if the word did. `Long` is a character literal whose escape is longer
      than one character. The last three are what the end of the text leaves unclosed; `cut` is
      a lone backslash at that end. */
  datatype Piece =
    | Code(c: char)
    | Stuck(c: char)
    | Line(text: string)
    | Block(body: seq<Ink>)
    | Str(inner: seq<Inner>)
    | Raw(kind: Kind, hashes: nat, text: string)
    | Chr(byte: bool, sole: Inner)
    | Long(byte: bool, escape: string)
    | OpenBlock(body: seq<Ink>)
    | OpenStr(inner: seq<Inner>, cut: bool)
    | OpenRaw(kind: Kind, hashes: nat, text: string)

  function PrintInk(k: Ink): string {
    match k case Ch(c) => [c] case Open => ['/', '*'] case Close => ['*', '/']
  }

  function PrintBody(body: seq<Ink>): string {
    if body == [] then [] else PrintInk(body[0]) + PrintBody(body[1..])
  }

  function PrintInner(i: Inner): string {
    match i case Plain(c) => [c] case Escaped(c) => ['\\', c]
  }

  function PrintInners(s: seq<Inner>): string {
    if s == [] then [] else PrintInner(s[0]) + PrintInners(s[1..])
  }

  function Terminator(hashes: nat): string { ['"'] + Repeat('#', hashes) }

  function Prefix(byte: bool): string { if byte then ['b'] else [] }

  function Letter(k: Kind): string { match k case Bare => [] case Byte => ['b'] case C => ['c'] }

  function RawFront(k: Kind, n: nat): string { Letter(k) + ['r'] + Repeat('#', n) + ['"'] }

  function PrintPiece(p: Piece): string {
    match p
    case Code(c) => [c]
    case Stuck(c) => [c]
    case Line(t) => ['/', '/'] + t
    case Block(body) => ['/', '*'] + PrintBody(body)
    case Str(inner) => ['"'] + PrintInners(inner) + ['"']
    case Raw(k, n, t) => RawFront(k, n) + t + Terminator(n)
    case Chr(b, i) => Prefix(b) + ['\''] + PrintInner(i) + ['\'']
    case Long(b, e) => Prefix(b) + ['\'', '\\'] + e + ['\'']
    case OpenBlock(body) => ['/', '*'] + PrintBody(body)
    case OpenStr(inner, cut) => ['"'] + PrintInners(inner) + (if cut then ['\\'] else [])
    case OpenRaw(k, n, t) => RawFront(k, n) + t
  }

  function Print(ps: seq<Piece>): string {
    if ps == [] then [] else PrintPiece(ps[0]) + Print(ps[1..])
  }

  /** The text with everything but code erased. */
  function CodeAlone(ps: seq<Piece>): string {
    if ps == [] then []
    else Survivor(ps[0]) + CodeAlone(ps[1..])
  }

  function Survivor(p: Piece): string { if p.Code? || p.Stuck? then [p.c] else Erase(PrintPiece(p)) }

  // ----- well-formed sources --------------------------------------------------

  function DepthAfter(ink: Ink, depth: nat): nat
    requires depth > 0
  {
    if ink.Open? then depth + 1 else if ink.Close? then depth - 1 else depth
  }

  /** The body of a comment `depth` levels deep, `after` levels deep at its end and never out
      of it before; no two neighbours read as a delimiter they are not. */
  predicate Nests(body: seq<Ink>, depth: nat, after: nat) {
    if body == [] then depth == after
    else depth > 0 && Nests(body[1..], DepthAfter(body[0], depth), after)
         && (body[0].Ch? && |body| > 1 ==>
               && !(body[0].c == '/' && PrintInk(body[1])[0] == '*')
               && !(body[0].c == '*' && PrintInk(body[1])[0] == '/'))
  }

  predicate Sole(i: Inner) { i.c != '\n' && (i.Plain? ==> i.c != '\\' && i.c != '\'') }

  predicate InEscape(c: char) {
    '0' <= c <= '9' || 'a' <= c <= 'f' || 'A' <= c <= 'F' || c == '{' || c == '}' || c == '_'
  }

  /** `x41`, `u{1F600}` and the like. */
  predicate LongEscape(e: string) {
    |e| > 1 && (e[0] == 'x' || e[0] == 'u') && forall i :: 0 < i < |e| ==> InEscape(e[i])
  }

  ghost predicate StartsChr(s: string) { exists b, i :: Sole(i) && PrintPiece(Chr(b, i)) <= s }

  ghost predicate StartsLong(s: string) { exists b, e :: LongEscape(e) && PrintPiece(Long(b, e)) <= s }

  ghost predicate StartsRaw(s: string) { exists k: Kind, n: nat :: !k.C? && n <= 255 && RawFront(k, n) <= s }

  ghost predicate StartsRawC(s: string) { exists n: nat :: n <= 255 && RawFront(C, n) <= s }

  predicate InWord(word: char -> bool, previous: Option<char>) { previous.Some? && word(previous.value) }

  /** Where a piece starts: right after the tick of a lifetime or the `r#` of a raw identifier,
      right after a literal, after the `r` that such an `r#` may start with, or elsewhere. */
  datatype Place = Elsewhere | Named | Ended | AfterR

  /** The place after a piece. */
  function PlaceAfter(word: char -> bool, previous: Option<char>, place: Place, p: Piece): Place {
    match p
    case Code(c) =>
      if c == '\'' then Named
      else if c == 'r' && !InWord(word, previous) && place != Ended then AfterR
      else if c == '#' && place.AfterR? then Named
      else Elsewhere
    case Str(_) => Ended
    case Raw(_, _, _) => Ended
    case Chr(_, _) => Ended
    case Long(_, _) => Ended
    case _ => Elsewhere
  }

  /** No word goes on here, so that letters before a quote are the prefix of a literal. */
  predicate Fresh(word: char -> bool, previous: Option<char>, place: Place) {
    !InWord(word, previous) && !place.Named? && !place.Ended?
  }

  predicate Strings(inner: seq<Inner>) {
    forall i :: 0 <= i < |inner| && inner[i].Plain? ==> inner[i].c != '"' && inner[i].c != '\\'
  }

  /** A piece is legible between what is before it and the text after it. A character is code
      where no comment and no literal starts; no literal starts with a letter inside a word. */
  ghost predicate Legible(word: char -> bool, previous: Option<char>, place: Place, p: Piece, rest: string) {
    match p
    case Code(c) =>
      var s := [c] + rest;
      && c != '"' && !Starts(s, '/', '/') && !Starts(s, '/', '*') && !StartsChr(s)
      && (StartsLong(s) ==> c == 'b' && !Fresh(word, previous, place))
      && (StartsRaw(s) ==> InWord(word, previous)) && (StartsRawC(s) ==> !Fresh(word, previous, place))
    case Stuck(c) =>
      var s := [c] + rest;
      && !Fresh(word, previous, place)
      && ((StartsRaw(s) && !InWord(word, previous)) || (StartsChr(s) && c == 'b'))
    case Line(t) => NoNewline(t) && (rest == [] || rest[0] == '\n')
    case Block(body) => body != [] && Nests(body, 1, 0)
    case Str(inner) => Strings(inner)
    case Raw(_, n, t) =>
      && n <= 255 && Fresh(word, previous, place)
      && forall i :: 0 <= i < |t| ==> !OccursAt(t + Terminator(n), Terminator(n), i)
    case Chr(b, i) => Sole(i) && (b ==> Fresh(word, previous, place))
    case Long(b, e) => LongEscape(e) && (b ==> Fresh(word, previous, place))
    case OpenBlock(body) => rest == [] && exists d: nat :: d > 0 && Nests(body, 1, d)
    case OpenStr(inner, _) => rest == [] && Strings(inner)
    case OpenRaw(_, n, t) =>
      && rest == [] && n <= 255 && Fresh(word, previous, place)
      && forall i :: 0 <= i ==> !OccursAt(t, Terminator(n), i)
  }

  ghost predicate WellFormed(word: char -> bool, previous: Option<char>, place: Place, ps: seq<Piece>)
    decreases |ps|
  {
    ps == [] ||
    (Legible(word, previous, place, ps[0], Print(ps[1..])) && PrintPiece(ps[0]) != []
     && WellFormed(word, Some(PrintPiece(ps[0])[|PrintPiece(ps[0])| - 1]),
                   PlaceAfter(word, previous, place, ps[0]), ps[1..]))
  }

  // ----- each piece is one step of the scan -----------------------------------

  /** The first step over a piece, and what the whole piece is blanked to. */
  predicate ErasedWhole(word: char -> bool, previous: Option<char>, p: string, rest: string) {
    p != [] && Next(word, previous, p + rest, 0) == Token(|p|, true, 0)
  }

  /** What the scanner takes for a character literal is one. */
  lemma CharIsLiteral(s: string)
    ensures CharLength(s) > 0 ==> StartsChr(s)
  {
    var n := CharLength(s);
    if n > 0 {
      var b := s[0] == 'b';
      var q := if b then 1 else 0;
      var i := if s[q + 1] == '\\' then Escaped(s[q + 2]) else Plain(s[q + 1]);
      assert Sole(i) && PrintPiece(Chr(b, i)) <= s;
    }
  }

  lemma {:induction false} HashesRepeat(s: string)
    ensures s[..Hashes(s)] == Repeat('#', Hashes(s))
  {
    if s != [] && s[0] == '#' {
      HashesRepeat(s[1..]);
      assert s[..Hashes(s)] == [s[0]] + s[1..][..Hashes(s[1..])];
    }
  }

  /** What the scanner takes for the opening of a raw string is one. */
  lemma OpeningIsRaw(s: string)
    ensures RawOpening(s) > 0 ==> StartsRaw(s)
  {
    if RawOpening(s) > 0 {
      var b := s[0] == 'b';
      var q := if b then 1 else 0;
      var n := Hashes(s[q + 1..]);
      HashesRepeat(s[q + 1..]);
      assert s[q] == 'r' && s[q + 1 + n] == s[q + 1..][n] == '"';
      RawFrontStarts(if b then Byte else Bare, n, s);
    }
  }

  lemma RawFrontStarts(k: Kind, n: nat, s: string)
    requires !k.C?
    requires var q := |Letter(k)|;
             && q + 1 + n < |s| && (k.Byte? ==> s[0] == 'b') && s[q] == 'r'
             && s[q + 1..][..n] == Repeat('#', n) && s[q + 1 + n] == '"'
    ensures RawFront(k, n) <= s
  {
    var q, front := |Letter(k)|, RawFront(k, n);
    forall i | 0 <= i < |front| ensures front[i] == s[i] {
      if q + 1 <= i < q + 1 + n {
        assert front[i] == '#' && s[i] == s[q + 1..][..n][i - q - 1];
      }
    }
  }

  lemma CodeIsKept(word: char -> bool, previous: Option<char>, place: Place, c: char, rest: string)
    requires Legible(word, previous, place, Code(c), rest)
    ensures Next(word, previous, [c] + rest, 0) == Token(1, false, 0)
  {
    CharIsLiteral([c] + rest);
    OpeningIsRaw([c] + rest);
    hide RawOpening, CharLength, StartsRaw, StartsRawC, StartsChr, StartsLong;
  }

  /** The first character of a long literal is kept. */
  lemma LongIsKept(word: char -> bool, previous: Option<char>, b: bool, e: string, rest: string)
    requires LongEscape(e)
    ensures Next(word, previous, PrintPiece(Long(b, e)) + rest, 0) == Token(1, false, 0)
  {
    var s := PrintPiece(Long(b, e)) + rest;
    var q := if b then 1 else 0;
    assert b ==> s[0] == 'b';
    assert s[q] == '\'' && s[q + 1] == '\\' && s[q + 2] == e[0] && s[q + 3] == e[1];
  }

  lemma LineIsErased(word: char -> bool, previous: Option<char>, t: string, rest: string)
    requires NoNewline(t) && (rest != [] ==> rest[0] == '\n')
    ensures ErasedWhole(word, previous, ['/', '/'] + t, rest)
  {
    var p := ['/', '/'] + t;
    var s := p + rest;
    FindFromIs(s, ['\n'], 2);
    var at := FindFrom(s, ['\n'], 2);
    assert forall k :: 2 <= k < |p| ==> s[k] == t[k - 2];
    if rest != [] {
      assert s[|p|..|p| + 1] == ['\n'];
      assert OccursAt(s, ['\n'], |p|);
    }
    assert at >= 0 ==> s[at..at + 1][0] == s[at];
  }

  lemma ChrIsErased(word: char -> bool, previous: Option<char>, b: bool, i: Inner, rest: string)
    requires Sole(i)
    ensures ErasedWhole(word, previous, PrintPiece(Chr(b, i)), rest)
  {
    var p := PrintPiece(Chr(b, i));
    var s := p + rest;
    var q := if b then 1 else 0;
    assert forall k :: 0 <= k < |p| ==> s[k] == p[k];
    assert p[q] == '\'' && p[|p| - 1] == '\'' && |p| == q + 2 + |PrintInner(i)|;
    assert p[q + 1] == PrintInner(i)[0];
    assert i.Escaped? ==> p[q + 2] == i.c;
  }

  lemma StringEndOver(s: string, i: nat, c: Inner, tail: string)
    requires i <= |s| && s[i..] == PrintInner(c) + tail
    requires c.Plain? ==> c.c != '"' && c.c != '\\'
    ensures i + |PrintInner(c)| <= |s| && s[i + |PrintInner(c)|..] == tail
    ensures StringEnd(s, i) == StringEnd(s, i + |PrintInner(c)|)
  {
    assert s[i] == s[i..][0];
    assert s[i + |PrintInner(c)|..] == s[i..][|PrintInner(c)|..];
  }

  lemma {:induction false} StringEndAt(s: string, i: nat, inner: seq<Inner>, tail: string)
    requires i <= |s| && s[i..] == PrintInners(inner) + tail && tail != [] && tail[0] == '"'
    requires Strings(inner)
    ensures StringEnd(s, i) == i + |PrintInners(inner)| + 1
    decreases |inner|
  {
    if inner == [] {
      assert s[i] == s[i..][0] == tail[0];
    } else {
      var more := PrintInners(inner[1..]) + tail;
      assert PrintInners(inner) + tail == PrintInner(inner[0]) + more;
      StringEndOver(s, i, inner[0], more);
      StringEndAt(s, i + |PrintInner(inner[0])|, inner[1..], tail);
    }
  }

  lemma StrIsErased(word: char -> bool, previous: Option<char>, inner: seq<Inner>, rest: string)
    requires Strings(inner)
    ensures ErasedWhole(word, previous, PrintPiece(Str(inner)), rest)
  {
    var p := PrintPiece(Str(inner));
    var s := p + rest;
    assert s[0] == '"';
    assert s[1..] == PrintInners(inner) + (['"'] + rest);
    StringEndAt(s, 1, inner, ['"'] + rest);
  }

  lemma {:induction false} HashesAre(n: nat, rest: string)
    requires rest == [] || rest[0] != '#'
    ensures Hashes(Repeat('#', n) + rest) == n
  {
    var s := Repeat('#', n) + rest;
    if n == 0 {
      assert s == rest;
    } else {
      assert s[0] == '#' && s[1..] == Repeat('#', n - 1) + rest;
      HashesAre(n - 1, rest);
    }
  }

  lemma RawOpens(k: Kind, n: nat, tail: string)
    requires n <= 255 && !k.C?
    ensures RawOpening(Letter(k) + ['r'] + Repeat('#', n) + (['"'] + tail)) == |Letter(k)| + 2 + n
    ensures Hashes((Letter(k) + ['r'] + Repeat('#', n) + (['"'] + tail))[|Letter(k)| + 1..]) == n
  {
    var q := |Letter(k)|;
    var s := Letter(k) + ['r'] + Repeat('#', n) + (['"'] + tail);
    assert s[q] == 'r' && (k.Byte? ==> s[0] == 'b');
    assert s[q + 1..] == Repeat('#', n) + (['"'] + tail);
    HashesAre(n, ['"'] + tail);
    assert s[q + 1 + n] == (['"'] + tail)[0];
  }

  /** The first terminator from the opening on is the one printed. */
  lemma TerminatorFound(front: string, t: string, term: string, rest: string)
    requires term != [] && forall i :: 0 <= i < |t| ==> !OccursAt(t + term, term, i)
    ensures FindFrom(front + t + term + rest, term, |front|) == |front| + |t|
  {
    var s := front + t + term + rest;
    var at := |front| + |t|;
    assert s[at..at + |term|] == term;
    assert OccursAt(s, term, at);
    FindFromIs(s, term, |front|);
    forall k | |front| <= k < at
      ensures !OccursAt(s, term, k)
    {
      var i := k - |front|;
      assert !OccursAt(t + term, term, i);
      assert s[k..k + |term|] == (t + term)[i..i + |term|];
    }
  }

  lemma RawFrontOpens(k: Kind, n: nat, tail: string)
    requires n <= 255 && !k.C?
    ensures var s := RawFront(k, n) + tail;
            && RawOpening(s) == |RawFront(k, n)|
            && s[0] == (if k.Byte? then 'b' else 'r')
            && Hashes(s[(if k.Byte? then 1 else 0) + 1..]) == n
  {
    var s := RawFront(k, n) + tail;
    assert s == Letter(k) + ['r'] + Repeat('#', n) + (['"'] + tail);
    RawOpens(k, n, tail);
  }

  lemma RawIsErased(word: char -> bool, previous: Option<char>, k: Kind, n: nat, t: string, rest: string)
    requires n <= 255 && !k.C? && !InWord(word, previous)
    requires forall i :: 0 <= i < |t| ==> !OccursAt(t + Terminator(n), Terminator(n), i)
    ensures ErasedWhole(word, previous, PrintPiece(Raw(k, n, t)), rest)
  {
    var s := PrintPiece(Raw(k, n, t)) + rest;
    RawReadsWhole(k, n, t, rest);
    RawComesFirst(word, previous, s);
  }

  lemma RawComesFirst(word: char -> bool, previous: Option<char>, s: string)
    requires s != [] && RawOpening(s) > 0 && !InWord(word, previous)
    ensures Next(word, previous, s, 0) == Token(RawLength(s), true, 0)
  {
    hide RawOpening, RawLength;
  }

  lemma RawReadsWhole(k: Kind, n: nat, t: string, rest: string)
    requires n <= 255 && !k.C?
    requires forall i :: 0 <= i < |t| ==> !OccursAt(t + Terminator(n), Terminator(n), i)
    ensures var p := PrintPiece(Raw(k, n, t));
            p != [] && RawOpening(p + rest) > 0 && RawLength(p + rest) == |p|
  {
    var front, term := RawFront(k, n), Terminator(n);
    var s := front + t + term + rest;
    Associate(front, t, term + rest);
    Associate(front + t, term, rest);
    RawFrontOpens(k, n, t + (term + rest));
    TerminatorFound(front, t, term, rest);
    assert PrintPiece(Raw(k, n, t)) + rest == s;
    assert RawLength(s) == |front| + |t| + |term|;
  }

  // ----- block comments -------------------------------------------------------

  lemma EraseAppend(a: string, b: string)
    ensures Erase(a + b) == Erase(a) + Erase(b)
  {
  }

  lemma OneInk(word: char -> bool, previous: Option<char>, body: seq<Ink>, rest: string, depth: nat, after: nat)
    requires body != [] && Nests(body, depth, after) && (after == 0 || rest == [])
    ensures Next(word, previous, PrintBody(body) + rest, depth)
         == Token(|PrintInk(body[0])|, true, DepthAfter(body[0], depth))
  {
    var s := PrintBody(body) + rest;
    assert s[0] == PrintInk(body[0])[0];
    if |body| > 1 {
      assert PrintBody(body[1..])[0] == PrintInk(body[1])[0];
      assert body[0].Ch? ==> s[1] == PrintInk(body[1])[0];
    } else {
      assert PrintBody(body[1..]) == [];
      assert body[0].Ch? ==> after == depth;
    }
    assert !body[0].Ch? ==> s[1] == PrintInk(body[0])[1];
  }

  lemma FrontOf(a: string, b: string, c: string)
    requires a != []
    ensures var s := a + b + c;
            s[..|a|] == a && s[|a|..] == b + c && s[|a| - 1] == a[|a| - 1]
  {
  }

  lemma LastOf(a: string, b: string)
    requires a != []
    ensures var s := a + b;
            s != [] && s[|s| - 1] == if b == [] then a[|a| - 1] else b[|b| - 1]
  {
  }

  lemma InkStep(word: char -> bool, previous: Option<char>, body: seq<Ink>, rest: string, depth: nat, after: nat)
    requires body != [] && Nests(body, depth, after) && (after == 0 || rest == [])
    ensures var ink := PrintInk(body[0]);
            && ink != []
            && Blanked(word, previous, PrintBody(body) + rest, depth)
               == Erase(ink)
                    + Blanked(word, Some(ink[|ink| - 1]), PrintBody(body[1..]) + rest, DepthAfter(body[0], depth))
  {
    OneInk(word, previous, body, rest, depth, after);
    hide Next, Blanked;
    var ink, s := PrintInk(body[0]), PrintBody(body) + rest;
    FirstToken(word, previous, s, depth, Token(|ink|, true, DepthAfter(body[0], depth)));
    FrontOf(ink, PrintBody(body[1..]), rest);
  }

  function LastChar(previous: Option<char>, s: string): Option<char> {
    if s == [] then previous else Some(s[|s| - 1])
  }

  /** A comment's body is erased whole, whatever is nested in it and closed or not. */
  lemma {:induction false} BodyIsErased(word: char -> bool, previous: Option<char>, body: seq<Ink>, rest: string,
                                        depth: nat, after: nat)
    requires Nests(body, depth, after) && (after == 0 || rest == [])
    ensures Blanked(word, previous, PrintBody(body) + rest, depth)
         == Erase(PrintBody(body)) + Blanked(word, LastChar(previous, PrintBody(body)), rest, after)
    decreases |body|
  {
    if body == [] {
      assert PrintBody(body) + rest == rest;
      assert Erase([]) == [];
      hide Blanked;
      assert [] + Blanked(word, previous, rest, after) == Blanked(word, previous, rest, after);
    } else {
      InkStep(word, previous, body, rest, depth, after);
      hide Next, Blanked;
      var ink, more := PrintInk(body[0]), PrintBody(body[1..]);
      EraseAppend(ink, more);
      LastOf(ink, more);
      hide Erase;
      BodyIsErased(word, Some(ink[|ink| - 1]), body[1..], rest, DepthAfter(body[0], depth), after);
      Associate(Erase(ink), Erase(more), Blanked(word, LastChar(Some(ink[|ink| - 1]), more), rest, after));
    }
  }

  // ----- the whole source -----------------------------------------------------

  /** What the scanner does not read as Rust does. */
  predicate Astray(p: Piece) { p.Stuck? || p.Long? || ((p.Raw? || p.OpenRaw?) && p.kind.C?) }

  /** Any other piece: blanked to its erasure, or kept if it is code, and the scan goes on
      after it. */
  lemma PieceStep(word: char -> bool, previous: Option<char>, place: Place, p: Piece, rest: string)
    requires Legible(word, previous, place, p, rest) && !Astray(p)
    ensures var t := PrintPiece(p);
            t != [] && Blanked(word, previous, t + rest, 0)
                       == Survivor(p) + Blanked(word, Some(t[|t| - 1]), rest, 0)
  {
    hide Next, Blanked;
    var t := PrintPiece(p);
    match p
    case Code(c) =>
      CodeIsKept(word, previous, place, c, rest);
      OneToken(word, previous, t, rest, false);
    case Line(text) =>
      LineIsErased(word, previous, text, rest);
      OneToken(word, previous, t, rest, true);
    case Block(body) => BlockStep(word, previous, body, rest, 0);
    case Str(inner) =>
      StrIsErased(word, previous, inner, rest);
      OneToken(word, previous, t, rest, true);
    case Raw(k, n, text) =>
      RawIsErased(word, previous, k, n, text, rest);
      OneToken(word, previous, t, rest, true);
    case Chr(b, i) =>
      ChrIsErased(word, previous, b, i, rest);
      OneToken(word, previous, t, rest, true);
    case OpenBlock(body) =>
      var d: nat :| d > 0 && Nests(body, 1, d);
      BlockStep(word, previous, body, [], d);
      NothingLeft(word, LastChar(Some('*'), PrintBody(body)), d);
      NothingLeft(word, Some(t[|t| - 1]), 0);
    case OpenStr(inner, cut) =>
      OpenStrIsErased(word, previous, inner, cut);
      OneToken(word, previous, t, rest, true);
    case OpenRaw(k, n, text) =>
      OpenRawIsErased(word, previous, k, n, text);
      OneToken(word, previous, t, rest, true);
  }

  lemma NothingLeft(word: char -> bool, previous: Option<char>, depth: nat)
    ensures Blanked(word, previous, [], depth) == []
  {
  }

  lemma {:induction false} StringEndOpen(s: string, i: nat, inner: seq<Inner>, cut: bool)
    requires i <= |s| && s[i..] == PrintInners(inner) + (if cut then ['\\'] else []) && Strings(inner)
    ensures StringEnd(s, i) == |s|
    decreases |inner|
  {
    if inner == [] {
      assert |s[i..]| == |s| - i;
      if cut { assert s[i] == s[i..][0]; }
    } else {
      var more := PrintInners(inner[1..]) + (if cut then ['\\'] else []);
      Associate(PrintInner(inner[0]), PrintInners(inner[1..]), if cut then ['\\'] else []);
      StringEndOver(s, i, inner[0], more);
      StringEndOpen(s, i + |PrintInner(inner[0])|, inner[1..], cut);
    }
  }

  lemma OpenStrIsErased(word: char -> bool, previous: Option<char>, inner: seq<Inner>, cut: bool)
    requires Strings(inner)
    ensures ErasedWhole(word, previous, PrintPiece(OpenStr(inner, cut)), [])
  {
    var p := PrintPiece(OpenStr(inner, cut));
    assert p + [] == p && p[0] == '"';
    assert p[1..] == PrintInners(inner) + (if cut then ['\\'] else []);
    StringEndOpen(p, 1, inner, cut);
  }

  lemma OpenRawIsErased(word: char -> bool, previous: Option<char>, k: Kind, n: nat, t: string)
    requires n <= 255 && !k.C? && !InWord(word, previous) && forall i :: 0 <= i ==> !OccursAt(t, Terminator(n), i)
    ensures ErasedWhole(word, previous, PrintPiece(OpenRaw(k, n, t)), [])
  {
    var s := RawFront(k, n) + t;
    assert s + [] == s;
    OpenRawReadsWhole(k, n, t);
    RawComesFirst(word, previous, s);
  }

  lemma OpenRawReadsWhole(k: Kind, n: nat, t: string)
    requires n <= 255 && !k.C? && forall i :: 0 <= i ==> !OccursAt(t, Terminator(n), i)
    ensures var s := RawFront(k, n) + t;
            s != [] && RawOpening(s) > 0 && RawLength(s) == |s|
  {
    RawFrontOpens(k, n, t);
    NotInTail(RawFront(k, n), t, Terminator(n));
  }

  lemma NotInTail(front: string, t: string, term: string)
    requires forall i :: 0 <= i ==> !OccursAt(t, term, i)
    ensures FindFrom(front + t, term, |front|) == -1
  {
    var s := front + t;
    FindFromIs(s, term, |front|);
    forall k | |front| <= k ensures !OccursAt(s, term, k) {
      assert !OccursAt(t, term, k - |front|);
      if k + |term| <= |s| {
        assert t[k - |front|..k - |front| + |term|] == s[k..k + |term|];
      }
    }
  }

  lemma OneToken(word: char -> bool, previous: Option<char>, p: string, rest: string, blank: bool)
    requires p != [] && Next(word, previous, p + rest, 0) == Token(|p|, blank, 0)
    ensures Blanked(word, previous, p + rest, 0)
         == (if blank then Erase(p) else p) + Blanked(word, Some(p[|p| - 1]), rest, 0)
  {
    var s := p + rest;
    assert s[..|p|] == p && s[|p|..] == rest && s[|p| - 1] == p[|p| - 1];
  }

  lemma BlockOpens(word: char -> bool, previous: Option<char>, tail: string)
    ensures Blanked(word, previous, ['/', '*'] + tail, 0) == Erase(['/', '*']) + Blanked(word, Some('*'), tail, 1)
  {
    var s := ['/', '*'] + tail;
    assert Next(word, previous, s, 0) == Token(2, true, 1);
    assert s[..2] == ['/', '*'] && s[2..] == tail;
  }

  lemma BlockStep(word: char -> bool, previous: Option<char>, body: seq<Ink>, rest: string, after: nat)
    requires Nests(body, 1, after) && (after == 0 || rest == [])
    ensures var p := ['/', '*'] + PrintBody(body);
            Blanked(word, previous, p + rest, 0)
              == Erase(p) + Blanked(word, LastChar(Some('*'), PrintBody(body)), rest, after)
  {
    hide Next, Blanked, Erase, PrintBody;
    BlockOpens(word, previous, PrintBody(body) + rest);
    BodyIsErased(word, Some('*'), body, rest, 1, after);
    JoinBlock(PrintBody(body), rest, Blanked(word, LastChar(Some('*'), PrintBody(body)), rest, after));
  }

  lemma JoinBlock(inner: string, rest: string, after: string)
    ensures var p := ['/', '*'] + inner;
            && p + rest == ['/', '*'] + (inner + rest)
            && Erase(['/', '*']) + (Erase(inner) + after) == Erase(p) + after
  {
    EraseAppend(['/', '*'], inner);
  }

  predicate GoesAstray(ps: seq<Piece>) { exists i :: 0 <= i < |ps| && Astray(ps[i]) }

  /** The blanker keeps exactly the code: of any source, closed or not at its end, it erases
      every comment, nested ones included, and every literal, and leaves each code
      character in place, if and only if no character literal has a long escape, no string is
      a raw C string and no letter of a word is stuck to a quote. */
  lemma {:induction false} ExactlyCodeSurvives(word: char -> bool, previous: Option<char>, place: Place,
                                               ps: seq<Piece>)
    requires WellFormed(word, previous, place, ps)
    ensures Blanked(word, previous, Print(ps), 0) == CodeAlone(ps) <==> !GoesAstray(ps)
    decreases |ps|
  {
    hide *;
    if ps == [] {
      NothingSurvives(word, previous);
    } else if Astray(ps[0]) {
      AstraySurvives(word, previous, place, ps);
    } else {
      var t := PrintPiece(ps[0]);
      FirstSurvives(word, previous, place, ps);
      AstrayLater(ps);
      ExactlyCodeSurvives(word, Some(t[|t| - 1]), PlaceAfter(word, previous, place, ps[0]), ps[1..]);
      SameFront(Survivor(ps[0]), Blanked(word, Some(t[|t| - 1]), Print(ps[1..]), 0), CodeAlone(ps[1..]));
    }
  }

  lemma NothingSurvives(word: char -> bool, previous: Option<char>)
    ensures Blanked(word, previous, Print([]), 0) == CodeAlone([]) && !GoesAstray([])
  {
  }

  lemma FirstSurvives(word: char -> bool, previous: Option<char>, place: Place, ps: seq<Piece>)
    requires ps != [] && WellFormed(word, previous, place, ps) && !Astray(ps[0])
    ensures var t := PrintPiece(ps[0]);
            && t != [] && WellFormed(word, Some(t[|t| - 1]), PlaceAfter(word, previous, place, ps[0]), ps[1..])
            && Blanked(word, previous, Print(ps), 0)
               == Survivor(ps[0]) + Blanked(word, Some(t[|t| - 1]), Print(ps[1..]), 0)
    ensures CodeAlone(ps) == Survivor(ps[0]) + CodeAlone(ps[1..])
  {
    hide Next, Blanked, Legible, Survivor, PrintPiece, PlaceAfter, Astray;
    PieceStep(word, previous, place, ps[0], Print(ps[1..]));
  }

  lemma AstrayLater(ps: seq<Piece>)
    requires ps != [] && !Astray(ps[0])
    ensures GoesAstray(ps) <==> GoesAstray(ps[1..])
  {
    if i :| 0 <= i < |ps| && Astray(ps[i]) { assert Astray(ps[1..][i - 1]); }
    if i :| 0 <= i < |ps[1..]| && Astray(ps[1..][i]) { assert Astray(ps[i + 1]); }
  }

  /** The first character of a raw C string is kept. */
  lemma RawCIsKept(word: char -> bool, previous: Option<char>, n: nat, tail: string)
    ensures Next(word, previous, RawFront(C, n) + tail, 0) == Token(1, false, 0)
  {
    var s := RawFront(C, n) + tail;
    assert s[0] == 'c';
  }

  /** A stuck letter is erased. */
  lemma StuckIsErased(word: char -> bool, previous: Option<char>, place: Place, c: char, rest: string)
    requires Legible(word, previous, place, Stuck(c), rest)
    ensures Next(word, previous, [c] + rest, 0).blank && c != '\n'
  {
    var s := [c] + rest;
    if StartsRaw(s) && !InWord(word, previous) {
      var k: Kind, n: nat :| !k.C? && n <= 255 && RawFront(k, n) <= s;
      CutAt(s, RawFront(k, n));
      RawFrontOpens(k, n, s[|RawFront(k, n)|..]);
    } else {
      var b, i :| Sole(i) && PrintPiece(Chr(b, i)) <= s;
      CutAt(s, PrintPiece(Chr(b, i)));
      ChrIsErased(word, previous, b, i, s[|PrintPiece(Chr(b, i))|..]);
    }
  }

  lemma AstraySurvives(word: char -> bool, previous: Option<char>, place: Place, ps: seq<Piece>)
    requires WellFormed(word, previous, place, ps) && ps != [] && Astray(ps[0])
    ensures Blanked(word, previous, Print(ps), 0) != CodeAlone(ps) && GoesAstray(ps)
  {
    var p, rest := ps[0], Print(ps[1..]);
    AstrayFirst(word, previous, place, p, rest);
    assert Print(ps) == PrintPiece(p) + rest && CodeAlone(ps) == Survivor(p) + CodeAlone(ps[1..]);
    hide *;
    assert Survivor(p)[0] == (Survivor(p) + CodeAlone(ps[1..]))[0];
  }

  /** The first character of a piece that goes astray is kept where it should go, or goes. */
  lemma AstrayFirst(word: char -> bool, previous: Option<char>, place: Place, p: Piece, rest: string)
    requires Legible(word, previous, place, p, rest) && Astray(p)
    ensures PrintPiece(p) != [] && Survivor(p) != []
    ensures Blanked(word, previous, PrintPiece(p) + rest, 0)[0] != Survivor(p)[0]
  {
    hide Next, Blanked, Terminator;
    var t := PrintPiece(p);
    match p
    case Stuck(c) =>
      StuckIsErased(word, previous, place, c, rest);
      BlankedIndex(word, previous, t + rest, 0, Next(word, previous, t + rest, 0), 0);
    case Long(b, e) =>
      LongIsKept(word, previous, b, e, rest);
      assert t[0] == '\'' || t[0] == 'b';
      KeptInstead(word, previous, t, rest);
    case Raw(k, n, text) =>
      RawCFirst(word, previous, n, text + Terminator(n), rest);
      Associate(RawFront(C, n), text, Terminator(n));
    case OpenRaw(k, n, text) =>
      RawCFirst(word, previous, n, text, rest);
  }

  lemma RawCFirst(word: char -> bool, previous: Option<char>, n: nat, tail: string, rest: string)
    ensures var t := RawFront(C, n) + tail;
            t != [] && Blanked(word, previous, t + rest, 0)[0] != Erase(t)[0]
  {
    hide Next, Blanked;
    var t := RawFront(C, n) + tail;
    RawCIsKept(word, previous, n, tail + rest);
    Associate(RawFront(C, n), tail, rest);
    assert t[0] == 'c';
    KeptInstead(word, previous, t, rest);
  }

  lemma KeptInstead(word: char -> bool, previous: Option<char>, t: string, rest: string)
    requires t != [] && Next(word, previous, t + rest, 0) == Token(1, false, 0) && t[0] != ' ' && t[0] != '\n'
    ensures Blanked(word, previous, t + rest, 0)[0] != Erase(t)[0]
  {
    hide Next;
    BlankedIndex(word, previous, t + rest, 0, Token(1, false, 0), 0);
  }

  /** A character literal is blanked exactly when its body is one character or a backslash and
      one character. */
  lemma LiteralIsErasedExactly(word: char -> bool, previous: Option<char>, place: Place, p: Piece, rest: string)
    requires (p.Chr? || p.Long?) && Legible(word, previous, place, p, rest)
    ensures var t := PrintPiece(p);
            Blanked(word, previous, t + rest, 0)[..|t|] == Erase(t) <==> p.Chr?
  {
    var t := PrintPiece(p);
    if p.Chr? {
      PieceStep(word, previous, place, p, rest);
    } else {
      LongIsKept(word, previous, p.byte, p.escape, rest);
      BlankedIndex(word, previous, t + rest, 0, Token(1, false, 0), 0);
      var out := Blanked(word, previous, t + rest, 0);
      assert out[..|t|][0] == out[0] == t[0];
      assert t[0] == '\'' || t[0] == 'b';
    }
  }

  /** `'\x41'` comes through as it is. */
  lemma HexEscapeSurvives(word: char -> bool)
    ensures Blanked(word, None, "'\\x41'", 0) == "'\\x41'"
  {
    var s := "'\\x41'";
    assert s == ['\'', '\\', 'x', '4', '1', '\''];
    forall k: nat, previous: Option<char> | k < |s| ensures Next(word, previous, s[k..], 0) == Token(1, false, 0) {
      assert s[k..][0] == s[k];
      assert k == 0 ==> s[k..][1] == '\\' && s[k..][2] == 'x' && s[k..][3] == '4';
    }
    RescanKeeps(word, None, s, 0);
    assert s[0..] == s;
  }

  lemma KeepOne(word: char -> bool, previous: Option<char>, c: char, rest: string)
    requires Next(word, previous, [c] + rest, 0) == Token(1, false, 0)
    ensures Blanked(word, previous, [c] + rest, 0) == [c] + Blanked(word, Some(c), rest, 0)
  {
    hide *;
    OneToken(word, previous, [c], rest, false);
  }

  lemma RawCFront(word: char -> bool, rest: string)
    requires word('c')
    ensures Blanked(word, None, ['c'] + (['r'] + (['#'] + rest)), 0)
         == ['c'] + (['r'] + (['#'] + Blanked(word, Some('#'), rest, 0)))
  {
    hide Blanked, RawOpening, RawLength;
    assert RawOpening(['c'] + (['r'] + (['#'] + rest))) == 0 by { RawCIsNone(['r'] + (['#'] + rest), 'c'); }
    KeepOne(word, None, 'c', ['r'] + (['#'] + rest));
    KeepOne(word, Some('c'), 'r', ['#'] + rest);
    assert RawOpening(['#'] + rest) == 0 by { RawCIsNone(rest, '#'); }
    KeepOne(word, Some('r'), '#', rest);
  }

  lemma RawCIsNone(rest: string, c: char)
    requires c != 'b' && c != 'r'
    ensures RawOpening([c] + rest) == 0
  {
  }

  lemma RawCBack(word: char -> bool)
    ensures Blanked(word, Some('"'), ['b'] + ['"', '#'], 0) == ['b', ' ', ' ']
  {
    var s := ['b'] + ['"', '#'];
    assert s[1] == '"';
    KeepOne(word, Some('"'), 'b', ['"', '#']);
    OpenStrIsErased(word, Some('b'), [Plain('#')], false);
    assert PrintInners([Plain('#')]) == ['#'];
    var p := ['"', '#'];
    assert PrintPiece(OpenStr([Plain('#')], false)) == p;
    hide Next;
    OneToken(word, Some('b'), p, [], true);
    assert p + [] == p;
    NothingLeft(word, Some('#'), 0);
  }

  /** `cr#"a"b"#` leaves what stands between its inner quotes as code, and the last quote opens
      a string. */
  lemma RawCStringGoesAstray(word: char -> bool)
    requires word('c')
    ensures Blanked(word, None, "cr#\"a\"b\"#", 0) == "cr#   b  "
  {
    hide Next, Blanked;
    var p, rest := ['"', 'a', '"'], ['b'] + ['"', '#'];
    assert "cr#\"a\"b\"#" == ['c'] + (['r'] + (['#'] + (p + rest)));
    RawCFront(word, p + rest);
    assert PrintInners([Plain('a')]) == ['a'];
    assert PrintPiece(Str([Plain('a')])) == p;
    StrIsErased(word, Some('#'), [Plain('a')], rest);
    OneToken(word, Some('#'), p, rest, true);
    RawCBack(word);
    assert Erase(p) == [' ', ' ', ' '];
  }

  /** `r#r"x"` is a raw identifier and a string; its second `r` is erased with the string. */
  lemma StuckLetterGoesAstray(word: char -> bool)
    requires !word('#')
    ensures Blanked(word, None, "r#r\"x\"", 0) == "r#    "
  {
    hide Next, Blanked, RawFront, Terminator, RawOpening;
    var p, tail := ['r', '"', 'x', '"'], ['r'] + ['"', 'x', '"'];
    assert "r#r\"x\"" == ['r'] + (['#'] + p) && p == tail;
    assert RawOpening(['#'] + p) == 0 by { RawCIsNone(p, '#'); }
    RawIdentifier(word, p);
    BareRaw();
    RawIsErased(word, Some('#'), Bare, 0, ['x'], []);
    assert p + [] == p;
    OneToken(word, Some('#'), p, [], true);
    NothingLeft(word, Some('"'), 0);
    assert Erase(p) == [' ', ' ', ' ', ' '];
  }

  lemma RawIdentifier(word: char -> bool, p: string)
    requires p != [] && p[0] == 'r'
    ensures Blanked(word, None, ['r'] + (['#'] + p), 0) == ['r'] + (['#'] + Blanked(word, Some('#'), p, 0))
  {
    hide Blanked, RawLength;
    var s := ['r'] + (['#'] + p);
    assert s[1] == '#' && s[2] == 'r' && s[1..][0] == '#' && s[1..][1..] == p && Hashes(p) == 0;
    assert Hashes(s[1..]) == 1;
    KeepOne(word, None, 'r', ['#'] + p);
    RawCIsNone(p, '#');
    KeepOne(word, Some('r'), '#', p);
  }

  lemma BareRaw()
    ensures PrintPiece(Raw(Bare, 0, ['x'])) == ['r', '"', 'x', '"']
    ensures forall i :: 0 <= i < 1 ==> !OccursAt(['x'] + Terminator(0), Terminator(0), i)
  {
    assert Repeat('#', 0) == [] && Terminator(0) == ['"'];
    assert (['x'] + ['"'])[0..1] == ['x'];
  }

  // ----- every text is such a source --------------------------------------------

  /** The ink of an open comment, up to its end or the end of the text. */
  lemma {:induction false} ReadBody(s: string, depth: nat) returns (body: seq<Ink>, rest: string, after: nat)
    requires depth > 0
    ensures s == PrintBody(body) + rest && Nests(body, depth, after) && (after == 0 || rest == [])
    ensures s != [] ==> body != [] && PrintBody(body)[0] == s[0]
    ensures after == 0 ==> body != []
    decreases |s|
  {
    if s == [] {
      body, rest, after := [], [], depth;
    } else {
      var ink := if Starts(s, '/', '*') then Open else if Starts(s, '*', '/') then Close else Ch(s[0]);
      var tail := s[|PrintInk(ink)|..];
      assert s == PrintInk(ink) + tail;
      var deeper := DepthAfter(ink, depth);
      if deeper == 0 {
        body, rest, after := [ink], tail, 0;
        assert body[1..] == [] && PrintBody(body) == PrintInk(ink) + [];
      } else {
        var more;
        more, rest, after := ReadBody(tail, deeper);
        body := [ink] + more;
        assert body[1..] == more;
        Associate(PrintInk(ink), PrintBody(more), rest);
        if ink.Ch? && more != [] {
          assert tail[0] == s[1];
          assert PrintInk(more[0])[0] == PrintBody(more)[0];
        }
      }
    }
  }

  /** The characters of an open string, up to its quote or the end of the text. */
  lemma {:induction false} ReadInners(s: string) returns (inner: seq<Inner>, rest: string)
    ensures s == PrintInners(inner) + rest && Strings(inner)
    ensures rest == [] || rest[0] == '"' || rest == ['\\']
    decreases |s|
  {
    if s == [] || s[0] == '"' || s == ['\\'] {
      inner, rest := [], s;
    } else {
      var i := if s[0] == '\\' then Escaped(s[1]) else Plain(s[0]);
      var tail := s[|PrintInner(i)|..];
      assert s == PrintInner(i) + tail;
      var more;
      more, rest := ReadInners(tail);
      inner := [i] + more;
      assert inner[1..] == more;
      Associate(PrintInner(i), PrintInners(more), rest);
    }
  }

  lemma CutAt(s: string, front: string)
    requires front <= s
    ensures s == front + s[|front|..]
  {
  }

  /** Cutting a text at the first terminator. */
  lemma CutAtFirst(tail: string, term: string, at: nat)
    requires FindFrom(tail, term, 0) == at
    ensures at + |term| <= |tail|
    ensures tail == tail[..at] + term + tail[at + |term|..]
    ensures forall i :: 0 <= i < at ==> !OccursAt(tail[..at] + term, term, i)
  {
    FindFromIs(tail, term, 0);
    hide FindFrom;
    var t := tail[..at];
    assert tail == t + term + tail[at + |term|..];
    forall i | 0 <= i < at ensures !OccursAt(t + term, term, i) {
      assert !OccursAt(tail, term, i);
      if i + |term| <= |t + term| {
        assert tail[i..i + |term|] == (t + term)[i..i + |term|];
      }
    }
  }

  /** The raw string that starts a text, closed or not. */
  lemma ReadRaw(word: char -> bool, previous: Option<char>, place: Place, s: string)
    returns (p: Piece, rest: string)
    requires (StartsRaw(s) || StartsRawC(s)) && Fresh(word, previous, place)
    ensures s == PrintPiece(p) + rest && Legible(word, previous, place, p, rest)
  {
    var k: Kind, n: nat :| n <= 255 && RawFront(k, n) <= s;
    var front, term := RawFront(k, n), Terminator(n);
    CutAt(s, front);
    hide FindFrom, RawFront, Terminator;
    var tail := s[|front|..];
    var at := FindFrom(tail, term, 0);
    if at < 0 {
      FindFromIs(tail, term, 0);
      p, rest := OpenRaw(k, n, tail), [];
      assert PrintPiece(p) + [] == PrintPiece(p);
    } else {
      CutAtFirst(tail, term, at);
      var t := tail[..at];
      p, rest := Raw(k, n, t), tail[at + |term|..];
      Associate(front, t + term, rest);
      Associate(front, t, term);
    }
  }

  /** The line comment that starts a text. */
  lemma ReadLine(word: char -> bool, previous: Option<char>, place: Place, s: string)
    returns (p: Piece, rest: string)
    requires Starts(s, '/', '/')
    ensures s == PrintPiece(p) + rest && Legible(word, previous, place, p, rest)
  {
    FindFromIs(s, ['\n'], 2);
    var at := FindFrom(s, ['\n'], 2);
    var end := if at < 0 then |s| else at;
    p, rest := Line(s[2..end]), s[end..];
    assert s == ['/', '/'] + s[2..end] + rest;
    forall i | 0 <= i < end - 2 ensures s[2..end][i] != '\n' {
      NewlineOccurs(s, i + 2);
    }
    assert at >= 0 ==> s[at..at + 1][0] == '\n';
  }

  lemma NewlineOccurs(s: string, i: nat)
    requires i < |s|
    ensures s[i] == '\n' ==> OccursAt(s, ['\n'], i)
  {
    assert s[i..i + 1] == [s[i]];
  }

  lemma ReadBlock(word: char -> bool, previous: Option<char>, place: Place, s: string)
    returns (p: Piece, rest: string)
    requires Starts(s, '/', '*')
    ensures s == PrintPiece(p) + rest && Legible(word, previous, place, p, rest)
  {
    var body, after;
    body, rest, after := ReadBody(s[2..], 1);
    p := if after == 0 then Block(body) else OpenBlock(body);
    Associate(['/', '*'], PrintBody(body), rest);
    assert s == ['/', '*'] + s[2..];
  }

  lemma ReadStr(word: char -> bool, previous: Option<char>, place: Place, s: string)
    returns (p: Piece, rest: string)
    requires s != [] && s[0] == '"'
    ensures s == PrintPiece(p) + rest && Legible(word, previous, place, p, rest)
  {
    var inner, tail := ReadInners(s[1..]);
    assert s == ['"'] + s[1..];
    Associate(['"'], PrintInners(inner), tail);
    if tail != [] && tail[0] == '"' {
      p, rest := Str(inner), tail[1..];
      assert tail == ['"'] + rest;
      Associate(['"'] + PrintInners(inner), ['"'], rest);
    } else {
      p, rest := OpenStr(inner, tail == ['\\']), [];
      assert tail == if tail == ['\\'] then ['\\'] else [];
      assert PrintPiece(p) + [] == PrintPiece(p);
    }
  }

  lemma ReadQuoted(word: char -> bool, previous: Option<char>, place: Place, s: string)
    returns (p: Piece, rest: string)
    requires StartsChr(s) || StartsLong(s)
    requires s[0] == 'b' ==> Fresh(word, previous, place)
    ensures s == PrintPiece(p) + rest && Legible(word, previous, place, p, rest)
  {
    if StartsChr(s) {
      var b, i :| Sole(i) && PrintPiece(Chr(b, i)) <= s;
      p, rest := Chr(b, i), s[|PrintPiece(Chr(b, i))|..];
    } else {
      var b, e :| LongEscape(e) && PrintPiece(Long(b, e)) <= s;
      p, rest := Long(b, e), s[|PrintPiece(Long(b, e))|..];
    }
  }

  /** A character of code. */
  lemma ReadLetter(word: char -> bool, previous: Option<char>, place: Place, s: string, letter: Piece)
    returns (p: Piece, rest: string)
    requires s != [] && (letter == Stuck(s[0]) || letter == Code(s[0]))
    requires letter.Stuck? ==>
               !Fresh(word, previous, place)
               && ((StartsRaw(s) && !InWord(word, previous)) || (StartsChr(s) && s[0] == 'b'))
    requires letter.Code? ==>
               && s[0] != '"' && !Starts(s, '/', '/') && !Starts(s, '/', '*') && !StartsChr(s)
               && (StartsLong(s) ==> s[0] == 'b' && !Fresh(word, previous, place))
               && (StartsRaw(s) ==> InWord(word, previous)) && (StartsRawC(s) ==> !Fresh(word, previous, place))
    ensures s == PrintPiece(p) + rest && Legible(word, previous, place, p, rest)
  {
    hide StartsRaw, StartsRawC, StartsChr, StartsLong;
    p, rest := letter, s[1..];
    assert s == [s[0]] + rest;
  }

  /** The piece a text starts with. */
  lemma ReadPiece(word: char -> bool, previous: Option<char>, place: Place, s: string)
    returns (p: Piece, rest: string)
    requires s != []
    ensures s == PrintPiece(p) + rest && PrintPiece(p) != [] && Legible(word, previous, place, p, rest)
  {
    hide StartsRaw, StartsRawC, StartsChr, StartsLong, Legible, PrintPiece;
    if (StartsRaw(s) || StartsRawC(s)) && Fresh(word, previous, place) {
      p, rest := ReadRaw(word, previous, place, s);
    } else if !Fresh(word, previous, place)
              && ((StartsRaw(s) && !InWord(word, previous)) || (StartsChr(s) && s[0] == 'b')) {
      p, rest := ReadLetter(word, previous, place, s, Stuck(s[0]));
    } else if (StartsChr(s) || StartsLong(s)) && (s[0] == 'b' ==> Fresh(word, previous, place)) {
      p, rest := ReadQuoted(word, previous, place, s);
    } else if Starts(s, '/', '/') {
      p, rest := ReadLine(word, previous, place, s);
    } else if Starts(s, '/', '*') {
      p, rest := ReadBlock(word, previous, place, s);
    } else if s[0] == '"' {
      p, rest := ReadStr(word, previous, place, s);
    } else {
      p, rest := ReadLetter(word, previous, place, s, Code(s[0]));
    }
    PieceIsText(p);
  }

  lemma PieceIsText(p: Piece)
    ensures PrintPiece(p) != []
  {
    if p.Raw? || p.OpenRaw? { assert |RawFront(p.kind, p.hashes)| > 0; }
  }

  /** Every text is the print of some source: nothing is left out by what is legible. */
  lemma {:induction false} EveryTextIsASource(word: char -> bool, previous: Option<char>, place: Place, text: string)
    returns (ps: seq<Piece>)
    ensures Print(ps) == text && WellFormed(word, previous, place, ps)
    decreases |text|
  {
    if text == [] {
      ps := [];
    } else {
      var p, rest := ReadPiece(word, previous, place, text);
      hide Legible;
      var t := PrintPiece(p);
      var more := EveryTextIsASource(word, Some(t[|t| - 1]), PlaceAfter(word, previous, place, p), rest);
      ps := [p] + more;
      assert ps[1..] == more;
    }
  }
}

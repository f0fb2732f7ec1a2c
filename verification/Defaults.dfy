// strip_defaults_from_params of source_scanner.rs: C++ default arguments removed from a
// parameter list by a one-pass scanner.
module Defaults {
  import opened Text

  datatype Quote = Outside | Inside(double: bool, escaped: bool)

  /** Nesting depths and quoting at one point of a parameter list. */
  datatype Scan = Scan(paren: nat, bracket: nat, brace: nat, angle: nat, quote: Quote)

  const TOP: Scan := Scan(0, 0, 0, 0, Outside)

  function Down(n: nat): nat { if n == 0 then 0 else n - 1 }

  function Step(s: Scan, c: char): Scan {
    match s.quote
    case Inside(double, escaped) =>
      if escaped then s.(quote := Inside(double, false))
      else if c == '\\' then s.(quote := Inside(double, true))
      else if c == (if double then '"' else '\'') then s.(quote := Outside)
      else s
    case Outside =>
      if c == '"' || c == '\'' then s.(quote := Inside(c == '"', false))
      else if c == '(' then s.(paren := s.paren + 1)
      else if c == ')' then s.(paren := Down(s.paren))
      else if c == '[' then s.(bracket := s.bracket + 1)
      else if c == ']' then s.(bracket := Down(s.bracket))
      else if c == '{' then s.(brace := s.brace + 1)
      else if c == '}' then s.(brace := Down(s.brace))
      else if c == '<' then s.(angle := s.angle + 1)
      else if c == '>' then s.(angle := Down(s.angle))
      else s
  }

  function Run(s: Scan, text: string): Scan {
    if text == [] then s else Step(Run(s, text[..|text| - 1]), text[|text| - 1])
  }

  /** The first top-level `c` of `text` at or after `i`, where the scan stands at `s`; else the end. */
  function Find(text: string, i: nat, s: Scan, c: char): (r: nat)
    requires i <= |text|
    ensures i <= r <= |text|
    decreases |text| - i
  {
    if i == |text| || (text[i] == c && s == TOP) then i else Find(text, i + 1, Step(s, text[i]), c)
  }

  function Comma(text: string): nat { Find(text, 0, TOP, ',') }
  function Equals(text: string): nat { Find(text, 0, TOP, '=') }

  /** What is kept of the first parameter: up to its default, without trailing blanks. */
  function Kept(text: string): string {
    TrimEnd(text[..if Equals(text) < Comma(text) then Equals(text) else Comma(text)])
  }

  /** The list split at its top-level commas, each parameter cut at its top-level `=`. */
  function Stripped(text: string): string
    decreases |text|
  {
    if Comma(text) == |text| then Kept(text)
    else Kept(text) + [','] + Stripped(text[Comma(text) + 1..])
  }

  // ----- the scanner ----------------------------------------------------------

  /** The scan of `rest` stands at `s` after `k` characters, with no comma among them. */
  predicate Standing(rest: string, k: nat, s: Scan, skip: bool) {
    && k <= |rest|
    && Comma(rest) == Find(rest, k, s, ',')
    && if skip then Equals(rest) < k else Equals(rest) == Find(rest, k, s, '=')
  }

  /** What the scanner has written of the current parameter. */
  function Written(rest: string, k: nat, skip: bool): string
    requires k <= |rest|
  {
    if skip then TrimEnd(rest[..Equals(rest)]) else rest[..k]
  }

  /** The scanner after `i` characters: `done` is finished text up to the last top-level
      comma, `rest` the text from there, `k` how much of it is read. */
  ghost predicate Progress(params: string, i: nat, done: string, rest: string, k: nat,
                           state: Scan, skip: bool, output: string)
  {
    && i <= |params| && k <= |rest| && params[i..] == rest[k..]
    && Standing(rest, k, state, skip)
    && (done == [] || done[|done| - 1] == ',')
    && done + Stripped(rest) == Stripped(params)
    && output == done + Written(rest, k, skip)
  }

  method StripDefaultsFromParams(params: string) returns (output: string)
    ensures output == Stripped(params)
  {
    output := [];
    var skipDefault := false;
    var state := TOP;
    ghost var done: string, rest, k := [], params, 0;
    var i := 0;
    assert Written(params, 0, false) == [];
    while i < |params|
      invariant 0 <= i <= |params|
      invariant Progress(params, i, done, rest, k, state, skipDefault, output)
    {
      var ch := params[i];
      Advance(params, i, done, rest, k, state, skipDefault, output);
      var next := Step(state, ch);
      if state == TOP && ch == '=' {
        skipDefault := true;
        output := TrimEnd(output);
        k := k + 1;
      } else if state == TOP && ch == ',' {
        skipDefault := false;
        output := TrimEnd(output);
        output := output + [ch];
        done, rest, k := output, rest[k + 1..], 0;
      } else {
        if !skipDefault {
          output := output + [ch];
        }
        k := k + 1;
      }
      state := next;
      i := i + 1;
    }
    AtEnd(done, rest, state, skipDefault);
    output := TrimEnd(output);
  }

  lemma NextCharacter(params: string, i: nat, rest: string, k: nat)
    requires i < |params| && k <= |rest| && params[i..] == rest[k..]
    ensures k < |rest| && params[i] == rest[k] && params[i + 1..] == rest[k + 1..]
  {
    assert params[i..][0] == rest[k..][0];
    assert params[i + 1..] == params[i..][1..] && rest[k + 1..] == rest[k..][1..];
  }

  /** What one character does to the scanner. */
  lemma Advance(params: string, i: nat, done: string, rest: string, k: nat, state: Scan, skip: bool, output: string)
    requires i < |params| && Progress(params, i, done, rest, k, state, skip, output)
    ensures k < |rest| && params[i] == rest[k]
    ensures
      var ch, next := params[i], Step(state, params[i]);
      if state == TOP && ch == '=' then Progress(params, i + 1, done, rest, k + 1, next, true, TrimEnd(output))
      else if state == TOP && ch == ',' then
        Progress(params, i + 1, TrimEnd(output) + [ch], rest[k + 1..], 0, next, false, TrimEnd(output) + [ch])
      else Progress(params, i + 1, done, rest, k + 1, next, skip, if skip then output else output + [ch])
  {
    NextCharacter(params, i, rest, k);
    if state == TOP && params[i] == '=' {
      AtEquals(params, i, done, rest, k, skip, output);
    } else if state == TOP && params[i] == ',' {
      AtComma(params, i, done, rest, k, skip, output);
    } else {
      AtOther(params, i, done, rest, k, state, skip, output);
    }
  }

  /** `trim_trailing_spaces` never reaches past the comma that ended the last parameter. */
  lemma {:induction false} TrimStaysInside(done: string, text: string)
    requires done == [] || done[|done| - 1] == ','
    ensures TrimEnd(done + text) == done + TrimEnd(text)
  {
    if text == [] {
      assert done + text == done;
    } else {
      var n := |text| - 1;
      assert (done + text)[..|done| + n] == done + text[..n];
      TrimStaysInside(done, text[..n]);
    }
  }

  lemma {:induction false} TrimTwice(text: string)
    ensures TrimEnd(TrimEnd(text)) == TrimEnd(text)
  {
    if text != [] && IsWhitespace(text[|text| - 1]) { TrimTwice(text[..|text| - 1]); }
  }

  lemma AtEquals(params: string, i: nat, done: string, rest: string, k: nat, skip: bool, output: string)
    requires Progress(params, i, done, rest, k, TOP, skip, output) && k < |rest| && rest[k] == '='
    requires i < |params| && params[i + 1..] == rest[k + 1..]
    ensures Progress(params, i + 1, done, rest, k + 1, Step(TOP, rest[k]), true, TrimEnd(output))
  {
    TrimStaysInside(done, Written(rest, k, skip));
    TrimTwice(rest[..Equals(rest)]);
  }

  lemma AtOther(params: string, i: nat, done: string, rest: string, k: nat, state: Scan, skip: bool, output: string)
    requires Progress(params, i, done, rest, k, state, skip, output) && k < |rest|
    requires !(state == TOP && (rest[k] == '=' || rest[k] == ','))
    requires i < |params| && params[i + 1..] == rest[k + 1..]
    ensures Progress(params, i + 1, done, rest, k + 1, Step(state, rest[k]), skip,
                     if skip then output else output + [rest[k]])
  {
    assert rest[..k + 1] == rest[..k] + [rest[k]];
    assert done + (rest[..k] + [rest[k]]) == done + rest[..k] + [rest[k]];
  }

  lemma KeptIsTrimmed(rest: string, k: nat, skip: bool)
    requires Standing(rest, k, TOP, skip) && k < |rest| && rest[k] == ','
    ensures Comma(rest) == k && TrimEnd(Written(rest, k, skip)) == Kept(rest)
  {
    TrimTwice(rest[..Equals(rest)]);
  }

  lemma AtComma(params: string, i: nat, done: string, rest: string, k: nat, skip: bool, output: string)
    requires Progress(params, i, done, rest, k, TOP, skip, output) && k < |rest| && rest[k] == ','
    requires i < |params| && params[i + 1..] == rest[k + 1..]
    ensures var r := TrimEnd(output) + [','];
            Progress(params, i + 1, r, rest[k + 1..], 0, Step(TOP, rest[k]), false, r)
  {
    TrimStaysInside(done, Written(rest, k, skip));
    KeptIsTrimmed(rest, k, skip);
    FinishParameter(done, rest, k);
    FreshParameter(TrimEnd(output) + [','], rest[k + 1..]);
  }

  lemma FinishParameter(done: string, rest: string, k: nat)
    requires k < |rest| && Comma(rest) == k
    ensures done + Kept(rest) + [','] + Stripped(rest[k + 1..]) == done + Stripped(rest)
  {
    AssociateFour(done, Kept(rest), [','], Stripped(rest[k + 1..]));
  }

  lemma FreshParameter(r: string, tail: string)
    ensures r + Written(tail, 0, false) == r
    ensures Standing(tail, 0, TOP, false)
  {
    assert tail[..0] == [];
  }

  lemma AtEnd(done: string, rest: string, s: Scan, skip: bool)
    requires Standing(rest, |rest|, s, skip)
    requires done == [] || done[|done| - 1] == ','
    ensures TrimEnd(done + Written(rest, |rest|, skip)) == done + Stripped(rest)
  {
    TrimStaysInside(done, Written(rest, |rest|, skip));
    TrimTwice(rest[..Equals(rest)]);
  }

  // ----- what the result is ---------------------------------------------------

  /** A prefix that ends at or before the first top-level `c` has none of its own. */
  lemma {:induction false} FindInPrefix(text: string, n: nat, i: nat, s: Scan, c: char)
    requires i <= |text| && i <= n <= Find(text, i, s, c)
    ensures Find(text[..n], i, s, c) == n
    decreases n - i
  {
    if i < n { FindInPrefix(text, n, i + 1, Step(s, text[i]), c); }
  }

  /** The scan at the place found: top level, unless it is the end. */
  lemma {:induction false} RunToFound(text: string, i: nat, s: Scan, c: char)
    requires i <= |text| && s == Run(TOP, text[..i])
    ensures var f := Find(text, i, s, c); f < |text| ==> text[f] == c && Run(TOP, text[..f]) == TOP
    decreases |text| - i
  {
    if i < |text| && !(text[i] == c && s == TOP) {
      assert text[..i + 1][..i] == text[..i];
      RunToFound(text, i + 1, Step(s, text[i]), c);
    }
  }

  /** Trailing blanks outside quotes leave the scan where it was. */
  lemma {:induction false} RunIgnoresTrailingBlanks(text: string)
    requires Run(TOP, text).quote == Outside
    ensures Run(TOP, TrimEnd(text)) == Run(TOP, text)
  {
    if text != [] && IsWhitespace(text[|text| - 1]) {
      RunIgnoresTrailingBlanks(text[..|text| - 1]);
    }
  }

  lemma {:induction false} TrimIsPrefix(text: string)
    ensures TrimEnd(text) <= text
  {
    if text != [] && IsWhitespace(text[|text| - 1]) { TrimIsPrefix(text[..|text| - 1]); }
  }

  /** What is kept of a parameter holds no top-level `=` or comma; if a comma ends the
      parameter, the scan of what is kept ends at top level. */
  lemma KeptIsPlain(text: string)
    ensures Find(Kept(text), 0, TOP, ',') == |Kept(text)| && Find(Kept(text), 0, TOP, '=') == |Kept(text)|
    ensures Comma(text) < |text| ==> Run(TOP, Kept(text)) == TOP
    ensures TrimEnd(Kept(text)) == Kept(text)
    ensures |Kept(text)| <= Comma(text) && Kept(text) <= text
  {
    var cut := if Equals(text) < Comma(text) then Equals(text) else Comma(text);
    TrimIsPrefix(text[..cut]);
    var n := |Kept(text)|;
    assert Kept(text) == text[..n];
    FindInPrefix(text, n, 0, TOP, ',');
    FindInPrefix(text, n, 0, TOP, '=');
    TrimTwice(text[..cut]);
    assert text[..0] == [];
    RunToFound(text, 0, TOP, ',');
    RunToFound(text, 0, TOP, '=');
    if Comma(text) < |text| {
      RunIgnoresTrailingBlanks(text[..cut]);
    }
  }

  /** Searching past a prefix that has none and leaves the scan at top level. */
  lemma {:induction false} FindPast(p: string, rest: string, i: nat, s: Scan, c: char)
    requires i <= |p| && Find(p, i, s, c) == |p| && s == Run(TOP, p[..i]) && Run(TOP, p) == TOP
    ensures Find(p + rest, i, s, c) == Find(p + rest, |p|, TOP, c)
    decreases |p| - i
  {
    if i == |p| {
      assert p[..i] == p;
    } else {
      assert p[..i + 1][..i] == p[..i];
      FindPast(p, rest, i + 1, Step(s, p[i]), c);
    }
  }

  lemma {:induction false} FindShifted(p: string, rest: string, i: nat, s: Scan, c: char)
    requires i <= |rest|
    ensures Find(p + rest, |p| + i, s, c) == |p| + Find(rest, i, s, c)
    decreases |rest| - i
  {
    if i < |rest| { FindShifted(p, rest, i + 1, Step(s, rest[i]), c); }
  }

  lemma PastParameter(p: string, tail: string, c: char)
    requires Find(p, 0, TOP, c) == |p| && Run(TOP, p) == TOP
    ensures Find(p + tail, 0, TOP, c) == |p| + Find(tail, 0, TOP, c)
  {
    assert p[..0] == [];
    FindPast(p, tail, 0, TOP, c);
    FindShifted(p, tail, 0, TOP, c);
  }

  lemma CommaAhead(more: string)
    ensures Find([','] + more, 0, TOP, ',') == 0
    ensures Find([','] + more, 0, TOP, '=') == 1 + Find(more, 0, TOP, '=')
  {
    FindShifted([','], more, 0, TOP, '=');
  }

  /** One kept parameter, its comma and more: where the first comma and `=` are. */
  lemma ParameterThen(p: string, more: string)
    requires Find(p, 0, TOP, ',') == |p| && Find(p, 0, TOP, '=') == |p| && Run(TOP, p) == TOP
    ensures Comma(p + [','] + more) == |p|
    ensures Equals(p + [','] + more) == |p| + 1 + Equals(more)
    ensures (p + [','] + more)[|p| + 1..] == more
  {
    hide Run, Find;
    var tail := [','] + more;
    assert p + [','] + more == p + tail;
    PastParameter(p, tail, ',');
    PastParameter(p, tail, '=');
    CommaAhead(more);
  }

  /** No top-level `=` is left, and stripping again changes nothing. */
  lemma {:induction false} StrippingSettles(text: string)
    ensures Equals(Stripped(text)) == |Stripped(text)|
    ensures Stripped(Stripped(text)) == Stripped(text)
    decreases |text|
  {
    KeptIsPlain(text);
    var p := Kept(text);
    if Comma(text) == |text| {
      assert p[..|p|] == p;
    } else {
      var more := Stripped(text[Comma(text) + 1..]);
      StrippingSettles(text[Comma(text) + 1..]);
      ParameterThen(p, more);
      assert (p + [','] + more)[..|p|] == p;
    }
  }

  /** The number of top-level commas. */
  function Commas(text: string): nat
    decreases |text|
  {
    if Comma(text) == |text| then 0 else 1 + Commas(text[Comma(text) + 1..])
  }

  /** The list keeps its arity. */
  lemma {:induction false} StrippingKeepsArity(text: string)
    ensures Commas(Stripped(text)) == Commas(text)
    decreases |text|
  {
    KeptIsPlain(text);
    if Comma(text) < |text| {
      StrippingKeepsArity(text[Comma(text) + 1..]);
      ParameterThen(Kept(text), Stripped(text[Comma(text) + 1..]));
    }
  }

  predicate Subsequence(a: string, b: string) {
    a == [] || (b != [] && ((a[0] == b[0] && Subsequence(a[1..], b[1..])) || Subsequence(a, b[1..])))
  }

  lemma {:induction false} PrefixThen(p: string, a: string, text: string, n: nat)
    requires |p| <= n <= |text| && p <= text && Subsequence(a, text[n..])
    ensures Subsequence(p + a, text)
    decreases |text|
  {
    if p != [] {
      assert (p + a)[1..] == p[1..] + a && text[1..][n - 1..] == text[n..];
      assert p[1..] <= text[1..];
      PrefixThen(p[1..], a, text[1..], n - 1);
    } else if n > 0 {
      assert text[1..][n - 1..] == text[n..];
      PrefixThen(p, a, text[1..], n - 1);
      assert p + a == a;
    } else {
      assert p + a == a && text[0..] == text;
    }
  }

  /** Nothing is added or reordered. */
  lemma {:induction false} StrippingOnlyDrops(text: string)
    ensures Subsequence(Stripped(text), text)
    decreases |text|
  {
    KeptIsPlain(text);
    var p, c := Kept(text), Comma(text);
    if c == |text| {
      PrefixThen(p, [], text, |text|);
      assert p + [] == p;
    } else {
      assert text[..0] == [];
      RunToFound(text, 0, TOP, ',');
      var more := Stripped(text[c + 1..]);
      StrippingOnlyDrops(text[c + 1..]);
      assert text[c..][1..] == text[c + 1..];
      assert ([','] + more)[1..] == more;
      PrefixThen(p, [','] + more, text, c);
      assert p + [','] + more == p + ([','] + more);
    }
  }

  // ----- printed parameter lists ------------------------------------------------

  datatype Bracket = Parens | Squares | Braces | Angles

  datatype Inner = Plain(c: char) | Escaped(c: char)

  /** A stretch of C++ text: a character, text in brackets, or a quoted literal. */
  datatype Bit = Ch(c: char) | Group(kind: Bracket, body: seq<Bit>) | Quoted(double: bool, text: seq<Inner>)

  /** A declarator and, after `=`, a default. */
  datatype Param = Required(declarator: seq<Bit>) | Defaulted(declarator: seq<Bit>, default: seq<Bit>)

  function Opens(k: Bracket): char {
    match k case Parens => '(' case Squares => '[' case Braces => '{' case Angles => '<'
  }

  function Shuts(k: Bracket): char {
    match k case Parens => ')' case Squares => ']' case Braces => '}' case Angles => '>'
  }

  function Mark(double: bool): char { if double then '"' else '\'' }

  function PrintInners(text: seq<Inner>): string {
    if text == [] then []
    else (if text[0].Plain? then [text[0].c] else ['\\', text[0].c]) + PrintInners(text[1..])
  }

  function PrintBit(b: Bit): string
    decreases b, 0
  {
    match b
    case Ch(c) => [c]
    case Group(k, body) => [Opens(k)] + (PrintBits(body) + [Shuts(k)])
    case Quoted(double, text) => [Mark(double)] + (PrintInners(text) + [Mark(double)])
  }

  function PrintBits(bits: seq<Bit>): string
    decreases bits, 1
  {
    if bits == [] then [] else PrintBit(bits[0]) + PrintBits(bits[1..])
  }

  predicate Special(c: char) { c in {'(', ')', '[', ']', '{', '}', '<', '>', '"', '\''} }

  /** Brackets and quotes only where they are meant: in groups and literals. */
  predicate Legible(b: Bit)
    decreases b, 0
  {
    match b
    case Ch(c) => !Special(c)
    case Group(_, body) => AllLegible(body)
    case Quoted(double, text) =>
      forall i :: 0 <= i < |text| && text[i].Plain? ==> text[i].c != Mark(double) && text[i].c != '\\'
  }

  predicate AllLegible(bits: seq<Bit>)
    decreases bits, 1
  {
    bits == [] || (Legible(bits[0]) && AllLegible(bits[1..]))
  }

  predicate Without(bits: seq<Bit>, c: char) { forall i :: 0 <= i < |bits| ==> bits[i] != Ch(c) }

  /** A declarator has no comma and no `=` outside brackets and quotes; a default no comma. */
  predicate WellFormed(p: Param) {
    && AllLegible(p.declarator) && Without(p.declarator, ',') && Without(p.declarator, '=')
    && (p.Defaulted? ==> AllLegible(p.default) && Without(p.default, ','))
  }

  function PrintParam(p: Param): string {
    PrintBits(p.declarator) + (if p.Defaulted? then ['='] + PrintBits(p.default) else [])
  }

  function PrintParams(ps: seq<Param>): seq<string> {
    if ps == [] then [] else [PrintParam(ps[0])] + PrintParams(ps[1..])
  }

  function Declarators(ps: seq<Param>): seq<string> {
    if ps == [] then [] else [TrimEnd(PrintBits(ps[0].declarator))] + Declarators(ps[1..])
  }

  lemma FindStep(c0: char, rest: string, s: Scan, c: char)
    requires !(c0 == c && s == TOP)
    ensures Find([c0] + rest, 0, s, c) == 1 + Find(rest, 0, Step(s, c0), c)
  {
    FindShifted([c0], rest, 0, Step(s, c0), c);
  }

  /** A literal is passed over: nothing in it is found and the scan is as before. */
  lemma {:induction false} PastInners(text: seq<Inner>, double: bool, rest: string, s: Scan, c: char)
    requires s.quote == Inside(double, false)
    requires forall i :: 0 <= i < |text| && text[i].Plain? ==> text[i].c != Mark(double) && text[i].c != '\\'
    ensures Find(PrintInners(text) + rest, 0, s, c) == |PrintInners(text)| + Find(rest, 0, s, c)
  {
    if text == [] {
      assert PrintInners(text) + rest == rest;
    } else {
      hide Find;
      var more := PrintInners(text[1..]) + rest;
      PastInners(text[1..], double, rest, s, c);
      if text[0].Plain? {
        assert PrintInners(text) + rest == [text[0].c] + more;
        FindStep(text[0].c, more, s, c);
      } else {
        assert PrintInners(text) + rest == ['\\'] + ([text[0].c] + more);
        FindStep('\\', [text[0].c] + more, s, c);
        FindStep(text[0].c, more, Step(s, '\\'), c);
      }
    }
  }

  /** So are a group and, unless it is what is looked for at top level, a character. */
  lemma {:induction false} PastBit(b: Bit, rest: string, s: Scan, c: char)
    requires Legible(b) && s.quote.Outside? && (c == ',' || c == '=') && !(b == Ch(c) && s == TOP)
    ensures Find(PrintBit(b) + rest, 0, s, c) == |PrintBit(b)| + Find(rest, 0, s, c)
    decreases b, 0
  {
    hide Find;
    match b
    case Ch(x) =>
      FindStep(x, rest, s, c);
    case Group(k, body) =>
      var inner := Step(s, Opens(k));
      var tail := [Shuts(k)] + rest;
      assert inner != TOP && Step(inner, Shuts(k)) == s;
      assert PrintBit(b) + rest == [Opens(k)] + (PrintBits(body) + tail);
      FindStep(Opens(k), PrintBits(body) + tail, s, c);
      PastBits(body, tail, inner, c);
      FindStep(Shuts(k), rest, inner, c);
    case Quoted(double, text) =>
      var inner := Step(s, Mark(double));
      var tail := [Mark(double)] + rest;
      assert inner.quote == Inside(double, false) && Step(inner, Mark(double)) == s;
      assert PrintBit(b) + rest == [Mark(double)] + (PrintInners(text) + tail);
      FindStep(Mark(double), PrintInners(text) + tail, s, c);
      PastInners(text, double, tail, inner, c);
      FindStep(Mark(double), rest, inner, c);
  }

  lemma {:induction false} PastBits(bits: seq<Bit>, rest: string, s: Scan, c: char)
    requires AllLegible(bits) && s.quote.Outside? && (c == ',' || c == '=') && (s == TOP ==> Without(bits, c))
    ensures Find(PrintBits(bits) + rest, 0, s, c) == |PrintBits(bits)| + Find(rest, 0, s, c)
    decreases bits, 1
  {
    hide Find;
    if bits == [] {
      assert PrintBits(bits) + rest == rest;
    } else {
      Associate(PrintBit(bits[0]), PrintBits(bits[1..]), rest);
      PastBit(bits[0], PrintBits(bits[1..]) + rest, s, c);
      PastBits(bits[1..], rest, s, c);
    }
  }

  lemma FoundFirst(c: char, rest: string)
    ensures Find([c] + rest, 0, TOP, c) == 0 && Find([], 0, TOP, c) == 0
  {
  }

  /** Where the first comma and the first `=` of a printed list are. */
  lemma FirstParameter(p: Param, rest: string)
    requires WellFormed(p) && (rest == [] || rest[0] == ',')
    ensures Comma(PrintParam(p) + rest) == |PrintParam(p)|
    ensures var d, e := |PrintBits(p.declarator)|, Equals(PrintParam(p) + rest);
            if p.Defaulted? then e == d else e >= |PrintParam(p)|
  {
    hide Find;
    var d := PrintBits(p.declarator);
    var after := (if p.Defaulted? then ['='] + PrintBits(p.default) else []) + rest;
    assert PrintParam(p) + rest == d + after;
    PastBits(p.declarator, after, TOP, ',');
    PastBits(p.declarator, after, TOP, '=');
    if rest != [] {
      FoundFirst(',', rest[1..]);
      assert rest == [','] + rest[1..];
    } else {
      FoundFirst(',', []);
    }
    if p.Defaulted? {
      var tail := PrintBits(p.default) + rest;
      assert after == ['='] + tail;
      FoundFirst('=', tail);
      FindStep('=', tail, TOP, ',');
      PastBits(p.default, rest, TOP, ',');
    } else {
      assert after == rest;
    }
  }

  lemma OneStripped(p: Param)
    requires WellFormed(p)
    ensures Stripped(PrintParam(p)) == TrimEnd(PrintBits(p.declarator))
  {
    hide Find, WellFormed, PrintBits;
    var text, d := PrintParam(p), PrintBits(p.declarator);
    FirstParameter(p, []);
    assert text + [] == text && text[..|d|] == d && text[..|text|] == text;
  }

  lemma FirstStripped(p: Param, more: string)
    requires WellFormed(p)
    ensures Stripped(PrintParam(p) + [','] + more) == TrimEnd(PrintBits(p.declarator)) + [','] + Stripped(more)
  {
    hide Find, WellFormed, PrintBits;
    var text, d := PrintParam(p), PrintBits(p.declarator);
    var all := text + ([','] + more);
    FirstParameter(p, [','] + more);
    assert text + [','] + more == all;
    assert all[|text| + 1..] == more && all[..|text|] == text && all[..|d|] == d;
  }

  lemma JoinMore(parts: seq<string>)
    requires |parts| > 1
    ensures Join(parts, ',') == parts[0] + [','] + Join(parts[1..], ',')
  {
  }

  lemma {:induction false} PartsOf(ps: seq<Param>)
    ensures |PrintParams(ps)| == |ps| == |Declarators(ps)|
  {
    if ps != [] { PartsOf(ps[1..]); }
  }

  /** A list of parameters is stripped to their declarators, whatever brackets and quotes stand
      in declarators and defaults. */
  lemma {:induction false} DeclaratorsAreLeft(ps: seq<Param>)
    requires ps != [] && forall i :: 0 <= i < |ps| ==> WellFormed(ps[i])
    ensures Stripped(Join(PrintParams(ps), ',')) == Join(Declarators(ps), ',')
    decreases |ps|
  {
    hide Stripped, WellFormed, PrintParam, PrintBits, TrimEnd, Join;
    PartsOf(ps);
    if |ps| == 1 {
      OneStripped(ps[0]);
      JoinOne(PrintParams(ps));
      JoinOne(Declarators(ps));
    } else {
      DeclaratorsAreLeft(ps[1..]);
      FirstStripped(ps[0], Join(PrintParams(ps[1..]), ','));
      JoinMore(PrintParams(ps));
      JoinMore(Declarators(ps));
    }
  }

  lemma JoinOne(parts: seq<string>)
    requires |parts| == 1
    ensures Join(parts, ',') == parts[0]
  {
  }
}

// source_scanner.rs: glob patterns compiled to regexes, and the source filter they feed.
module Glob {
  import opened Paths
  import opened Regex
  import Text

  // ----- the emitter ----------------------------------------------------------

  predicate DoubleStar(p: string) { |p| > 1 && p[0] == '*' && p[1] == '*' }

  /** What one glob item becomes. */
  function EmitItem(p: string): string
    requires p != []
  {
    if DoubleStar(p) then ['.', '*']
    else if p[0] == '*' then ['[', '^', '/', ']', '*']
    else if p[0] == '?' then ['[', '^', '/', ']']
    else if IsMeta(p[0]) then ['\\', p[0]]
    else [p[0]]
  }

  function AfterItem(p: string): (q: string)
    requires p != []
    ensures |q| < |p|
  {
    if DoubleStar(p) then p[2..] else p[1..]
  }

  /** `glob_fragment_to_regex`. */
  function Emit(p: string): string {
    if p == [] then [] else EmitItem(p) + Emit(AfterItem(p))
  }

  /** The loop of `glob_fragment_to_regex`. */
  method GlobFragmentToRegex(pattern: string) returns (out: string)
    ensures out == Emit(pattern)
  {
    out := [];
    var i := 0;
    while i < |pattern|
      invariant 0 <= i <= |pattern|
      invariant out + Emit(pattern[i..]) == Emit(pattern)
    {
      var c := pattern[i];
      ghost var before, rest := out, pattern[i..];
      assert rest[1..] == pattern[i + 1..];
      if c == '*' {
        if i + 1 < |pattern| && pattern[i + 1] == '*' {
          assert rest[2..] == pattern[i + 2..];
          out := out + ['.', '*'];
          i := i + 1;
        } else {
          out := out + ['[', '^', '/', ']', '*'];
        }
      } else if c == '?' {
        out := out + ['[', '^', '/', ']'];
      } else if IsMeta(c) {
        out := out + ['\\', c];
      } else {
        out := out + [c];
      }
      i := i + 1;
      Regroup(before, out, Emit(rest), Emit(pattern[i..]));
    }
  }

  lemma Regroup(before: string, out: string, whole: string, rest: string)
    requires before <= out && whole == out[|before|..] + rest
    ensures out + rest == before + whole
  {
    assert out == before + out[|before|..];
  }

  /** `normalize_glob_separators`. */
  function Normalize(p: string): (r: string)
    ensures |r| == |p|
  {
    seq(|p|, i requires 0 <= i < |p| => if p[i] == '\\' then '/' else p[i])
  }

  predicate HasSlash(p: string) { exists i :: 0 <= i < |p| && p[i] == '/' }

  function TrimSlashes(p: string): string {
    if p == [] || p[|p| - 1] != '/' then p else TrimSlashes(p[..|p| - 1])
  }

  const BELOW: string := "(?:/.*)?"
  const ANYWHERE: string := "(?:.*/)?"

  /** What `compile_source_filter_pattern` puts between the anchors. */
  function Body(n: string): string {
    if n == ['*'] then ['.', '*']
    else if n != [] && n[|n| - 1] == '/' then Emit(TrimSlashes(n)) + BELOW
    else if HasSlash(n) then Emit(n)
    else ANYWHERE + Emit(n)
  }

  function RegexSource(pattern: string): string { ['^'] + Body(Normalize(pattern)) + ['$'] }

  // ----- the direct meaning ---------------------------------------------------

  /** `**` takes anything, `*` and `?` stay inside a component, the rest is literal. */
  predicate Fits(p: string, s: string)
    decreases |p|, |s|
  {
    if p == [] then s == []
    else if DoubleStar(p) then Fits(p[2..], s) || (s != [] && Fits(p, s[1..]))
    else if p[0] == '*' then Fits(p[1..], s) || (s != [] && s[0] != '/' && Fits(p, s[1..]))
    else if p[0] == '?' then s != [] && s[0] != '/' && Fits(p[1..], s[1..])
    else s != [] && s[0] == p[0] && Fits(p[1..], s[1..])
  }

  /** A lone star matches all; a trailing slash names a directory and all below it; a pattern
      with a slash is a whole path; one without is looked for below every directory. */
  predicate PatternFits(pattern: string, path: string) {
    var n := Normalize(pattern);
    if n == ['*'] then true
    else if n != [] && n[|n| - 1] == '/' then
      exists k :: 0 <= k <= |path| && Fits(TrimSlashes(n), path[..k]) && (k < |path| ==> path[k] == '/')
    else if HasSlash(n) then Fits(n, path)
    else Fits(n, path) || exists k :: 1 <= k <= |path| && path[k - 1] == '/' && Fits(n, path[k..])
  }

  // ----- the regex of a fragment ----------------------------------------------

  function ItemRe(p: string): Re
    requires p != []
  {
    if DoubleStar(p) then Star(Dot)
    else if p[0] == '*' then Star(NotChr('/'))
    else if p[0] == '?' then NotChr('/')
    else Chr(p[0])
  }

  /** What `Emit(p)` denotes when `rest` follows it. */
  function ToRe(p: string, rest: Re): Re {
    if p == [] then rest else Cat(ItemRe(p), ToRe(AfterItem(p), rest))
  }

  predicate NoQuantifierFirst(s: string) { s == [] || !IsQuantifier(s[0]) }

  lemma EmitStart(p: string)
    ensures NoQuantifierFirst(Emit(p))
  {
    if p != [] { assert Emit(p)[0] == EmitItem(p)[0]; }
  }

  /** `s` reads as the regex `r` up to `t`. */
  predicate Reads(s: string, r: Re, t: string) { ParseItems(s) == Some((r, t)) }

  predicate StartsItem(s: string) { s != [] && s[0] != ')' && s[0] != '$' }

  lemma ReadPlain(s: string, atom: Re, rest: string, r: Re, t: string)
    requires StartsItem(s) && ParseAtom(s) == Some((atom, rest))
    requires NoQuantifierFirst(rest) && Reads(rest, r, t)
    ensures Reads(s, Cat(atom, r), t)
  {
  }

  lemma ReadQuantified(s: string, atom: Re, q: char, rest: string, r: Re, t: string)
    requires StartsItem(s) && ParseAtom(s) == Some((atom, [q] + rest)) && IsQuantifier(q)
    requires NoQuantifierFirst(rest) && Reads(rest, r, t)
    ensures Reads(s, Cat(if q == '*' then Star(atom) else Opt(atom), r), t)
  {
    assert ([q] + rest)[1..] == rest;
  }

  lemma ClassAtom(x: string)
    ensures ParseAtom(['[', '^', '/', ']'] + x) == Some((NotChr('/'), x))
  {
    assert (['[', '^', '/', ']'] + x)[4..] == x;
  }

  lemma LiteralAtom(c: char, x: string)
    requires !IsQuantifier(c)
    ensures ParseAtom((if IsMeta(c) then ['\\', c] else [c]) + x) == Some((Chr(c), x))
  {
    var s := (if IsMeta(c) then ['\\', c] else [c]) + x;
    assert IsMeta(c) ==> s[2..] == x;
    assert !IsMeta(c) ==> s[1..] == x;
  }

  lemma ReadAny(x: string, r: Re, t: string)
    requires NoQuantifierFirst(x) && Reads(x, r, t)
    ensures Reads(['[', '^', '/', ']'] + x, Cat(NotChr('/'), r), t)
  {
    ClassAtom(x);
    ReadPlain(['[', '^', '/', ']'] + x, NotChr('/'), x, r, t);
  }

  lemma ReadStar(x: string, r: Re, t: string)
    requires NoQuantifierFirst(x) && Reads(x, r, t)
    ensures Reads(['[', '^', '/', ']', '*'] + x, Cat(Star(NotChr('/')), r), t)
  {
    var s := ['[', '^', '/', ']'] + (['*'] + x);
    assert s == ['[', '^', '/', ']', '*'] + x;
    ClassAtom(['*'] + x);
    ReadQuantified(s, NotChr('/'), '*', x, r, t);
  }

  lemma ReadDotStar(x: string, r: Re, t: string)
    requires NoQuantifierFirst(x) && Reads(x, r, t)
    ensures Reads(['.', '*'] + x, Cat(Star(Dot), r), t)
  {
    var s := ['.', '*'] + x;
    assert s[1..] == ['*'] + x;
    ReadQuantified(s, Dot, '*', x, r, t);
  }

  lemma ReadLiteral(c: char, x: string, r: Re, t: string)
    requires NoQuantifierFirst(x) && Reads(x, r, t) && !IsQuantifier(c)
    ensures Reads((if IsMeta(c) then ['\\', c] else [c]) + x, Cat(Chr(c), r), t)
  {
    LiteralAtom(c, x);
    ReadPlain((if IsMeta(c) then ['\\', c] else [c]) + x, Chr(c), x, r, t);
  }

  /** One emitted item, before text that already reads. */
  lemma ReadItem(p: string, y: string, r: Re, t: string)
    requires p != [] && NoQuantifierFirst(y) && Reads(y, r, t)
    ensures Reads(EmitItem(p) + y, Cat(ItemRe(p), r), t)
  {
    if DoubleStar(p) {
      ReadDotStar(y, r, t);
    } else if p[0] == '*' {
      ReadStar(y, r, t);
    } else if p[0] == '?' {
      ReadAny(y, r, t);
    } else {
      ReadLiteral(p[0], y, r, t);
    }
  }

  lemma EmitUnfold(p: string, x: string)
    requires p != []
    ensures Emit(p) + x == EmitItem(p) + (Emit(AfterItem(p)) + x)
  {
    hide *;
    EmitFirst(p);
    Text.Associate(EmitItem(p), Emit(AfterItem(p)), x);
  }

  lemma EmitBefore(p: string, x: string)
    requires NoQuantifierFirst(x)
    ensures NoQuantifierFirst(Emit(p) + x)
  {
    EmitStart(p);
  }

  lemma EmitFirst(p: string)
    requires p != []
    ensures Emit(p) == EmitItem(p) + Emit(AfterItem(p))
  {
  }

  /** Parsing the emitted text, whatever follows it, gives the fragment's regex. */
  lemma {:induction false} ReadEmitted(p: string, x: string, r: Re, t: string)
    requires NoQuantifierFirst(x) && Reads(x, r, t)
    ensures Reads(Emit(p) + x, ToRe(p, r), t)
  {
    if p == [] {
      assert Emit(p) + x == x;
    } else {
      var q := AfterItem(p);
      ReadEmitted(q, x, r, t);
      EmitUnfold(p, x);
      EmitBefore(q, x);
      ReadItem(p, Emit(q) + x, ToRe(q, r), t);
    }
  }

  // ----- the two groups -------------------------------------------------------

  const BELOW_RE: Re := Opt(Cat(Chr('/'), Cat(Star(Dot), Eps)))
  const ANYWHERE_RE: Re := Opt(Cat(Star(Dot), Cat(Chr('/'), Eps)))

  function Closing(x: string): string { [')', '?'] + x }

  lemma ReadClosing(x: string)
    ensures Reads(Closing(x), Eps, Closing(x)) && NoQuantifierFirst(Closing(x))
    ensures Closing(x)[1..] == ['?'] + x
  {
  }

  lemma ReadGroup(inner: string, re: Re, x: string, r: Re, t: string)
    requires Reads(inner, re, Closing(x)) && NoQuantifierFirst(x) && Reads(x, r, t)
    ensures Reads(['(', '?', ':'] + inner, Cat(Opt(re), r), t)
  {
    var s := ['(', '?', ':'] + inner;
    assert s[3..] == inner;
    ReadClosing(x);
    ReadQuantified(s, re, '?', x, r, t);
  }

  lemma ReadBelow(x: string, r: Re, t: string)
    requires NoQuantifierFirst(x) && Reads(x, r, t)
    ensures Reads(BELOW + x, Cat(BELOW_RE, r), t)
  {
    ReadClosing(x);
    var one := ['.', '*'] + Closing(x);
    var two := ['/'] + one;
    ReadDotStar(Closing(x), Eps, Closing(x));
    ReadLiteral('/', one, Cat(Star(Dot), Eps), Closing(x));
    ReadGroup(two, Cat(Chr('/'), Cat(Star(Dot), Eps)), x, r, t);
    assert BELOW + x == ['(', '?', ':'] + two;
  }

  lemma ReadAnywhere(x: string, r: Re, t: string)
    requires NoQuantifierFirst(x) && Reads(x, r, t)
    ensures Reads(ANYWHERE + x, Cat(ANYWHERE_RE, r), t)
  {
    ReadClosing(x);
    var one := ['/'] + Closing(x);
    var two := ['.', '*'] + one;
    ReadLiteral('/', Closing(x), Eps, Closing(x));
    ReadDotStar(one, Cat(Chr('/'), Eps), Closing(x));
    ReadGroup(two, Cat(Star(Dot), Cat(Chr('/'), Eps)), x, r, t);
    assert ANYWHERE + x == ['(', '?', ':'] + two;
  }

  /** The regex the compiled pattern is. */
  function PatternRe(pattern: string): Re {
    var n := Normalize(pattern);
    if n == ['*'] then Cat(Star(Dot), Eps)
    else if n != [] && n[|n| - 1] == '/' then ToRe(TrimSlashes(n), Cat(BELOW_RE, Eps))
    else if HasSlash(n) then ToRe(n, Eps)
    else Cat(ANYWHERE_RE, ToRe(n, Eps))
  }

  lemma ReadBody(pattern: string)
    ensures Reads(Body(Normalize(pattern)) + ['$'], PatternRe(pattern), ['$'])
  {
    var n, end := Normalize(pattern), ['$'];
    assert Reads(end, Eps, end);
    if n == ['*'] {
      ReadDotStar(end, Eps, end);
    } else if n != [] && n[|n| - 1] == '/' {
      ReadBelow(end, Eps, end);
      assert (BELOW + end)[0] == '(';
      ReadEmitted(TrimSlashes(n), BELOW + end, Cat(BELOW_RE, Eps), end);
      assert Body(n) + end == Emit(TrimSlashes(n)) + (BELOW + end);
    } else if HasSlash(n) {
      ReadEmitted(n, end, Eps, end);
    } else {
      ReadEmitted(n, end, Eps, end);
      EmitStart(n);
      ReadAnywhere(Emit(n) + end, ToRe(n, Eps), end);
      assert Body(n) + end == ANYWHERE + (Emit(n) + end);
    }
  }

  /** Every pattern compiles: the emitted string is a regex, and this is which. */
  lemma CompiledPattern(pattern: string)
    ensures Regex.Parse(RegexSource(pattern)) == Some(PatternRe(pattern))
  {
    ReadBody(pattern);
    assert RegexSource(pattern)[1..] == Body(Normalize(pattern)) + ['$'];
  }

  // ----- the regex means what the glob means ----------------------------------

  /** Some front of `s` fits `p` and `rest` matches the remainder. */
  ghost predicate Splits(p: string, rest: Re, s: string) {
    exists k :: 0 <= k <= |s| && Fits(p, s[..k]) && Matches(rest, s[k..])
  }

  /** A fragment followed by `rest` matches a split of the string: the fragment fits the
      front and `rest` matches the back. */
  lemma {:induction false} FragmentMeaning(p: string, rest: Re, s: string)
    requires Text.NoNewline(s)
    ensures Matches(ToRe(p, rest), s) <==> Splits(p, rest, s)
    decreases |p|, |s|
  {
    if p == [] {
      assert s[..0] == [] && s[0..] == s;
    } else {
      var q := AfterItem(p);
      FragmentMeaning(q, rest, s);
      if s != [] {
        FragmentMeaning(p, rest, s[1..]);
        FragmentMeaning(q, rest, s[1..]);
      }
      if p[0] == '*' {
        StarThen(if DoubleStar(p) then Dot else NotChr('/'), ToRe(q, rest), s);
        SplitStar(p, q, rest, s);
      } else {
        CharMeaning(p, ToRe(q, rest), s);
        SplitChar(p, rest, s);
      }
    }
  }

  lemma CharMeaning(p: string, next: Re, s: string)
    requires p != [] && p[0] != '*'
    ensures Matches(Cat(ItemRe(p), next), s) <==>
            s != [] && (if p[0] == '?' then s[0] != '/' else s[0] == p[0]) && Matches(next, s[1..])
  {
    CharThen(ItemRe(p), next, s);
    if s != [] {
      assert |s[..1]| == 1 && s[..1][0] == s[0];
    }
  }

  lemma SplitStar(p: string, q: string, rest: Re, s: string)
    requires p != [] && p[0] == '*' && q == (if DoubleStar(p) then p[2..] else p[1..])
    ensures Splits(p, rest, s) <==>
            Splits(q, rest, s) || (s != [] && (DoubleStar(p) || s[0] != '/') && Splits(p, rest, s[1..]))
  {
    if k :| 0 <= k <= |s| && Fits(p, s[..k]) && Matches(rest, s[k..]) {
      if !Fits(q, s[..k]) {
        assert s[..k][1..] == s[1..][..k - 1] && s[1..][k - 1..] == s[k..];
      }
    }
    if s != [] {
      if j :| 0 <= j <= |s[1..]| && Fits(p, s[1..][..j]) && Matches(rest, s[1..][j..]) {
        assert s[..j + 1][1..] == s[1..][..j] && s[1..][j..] == s[j + 1..];
        assert DoubleStar(p) || s[0] != '/' ==> Fits(p, s[..j + 1]);
      }
    }
    if i :| 0 <= i <= |s| && Fits(q, s[..i]) && Matches(rest, s[i..]) {
      assert Fits(p, s[..i]);
    }
  }

  lemma SplitChar(p: string, rest: Re, s: string)
    requires p != [] && p[0] != '*'
    ensures Splits(p, rest, s) <==>
            s != [] && (if p[0] == '?' then s[0] != '/' else s[0] == p[0]) && Splits(p[1..], rest, s[1..])
  {
    if k :| 0 <= k <= |s| && Fits(p, s[..k]) && Matches(rest, s[k..]) {
      assert k > 0;
      assert s[..k][1..] == s[1..][..k - 1] && s[1..][k - 1..] == s[k..];
    }
    if s != [] {
      if j :| 0 <= j <= |s[1..]| && Fits(p[1..], s[1..][..j]) && Matches(rest, s[1..][j..]) {
        assert s[..j + 1][1..] == s[1..][..j] && s[1..][j..] == s[j + 1..];
      }
    }
  }

  lemma WholeFragment(p: string, s: string)
    requires Text.NoNewline(s)
    ensures Matches(ToRe(p, Eps), s) <==> Fits(p, s)
  {
    FragmentMeaning(p, Eps, s);
    assert s[..|s|] == s;
  }

  lemma BelowMeaning(s: string)
    requires Text.NoNewline(s)
    ensures Matches(Cat(BELOW_RE, Eps), s) <==> s == [] || s[0] == '/'
  {
    var tail := Cat(Star(Dot), Eps);
    assert Matches(Cat(BELOW_RE, Eps), s) <==> Matches(BELOW_RE, s) by {
      assert s[..|s|] == s && s[|s|..] == [];
      if Matches(Cat(BELOW_RE, Eps), s) {
        var k :| 0 <= k <= |s| && Matches(BELOW_RE, s[..k]) && Matches(Eps, s[k..]);
        assert k == |s|;
      }
    }
    CharThen(Chr('/'), tail, s);
    if s != [] {
      StarOfClass(Dot, s[1..]);
      assert s[1..][..|s| - 1] == s[1..] && s[1..][|s| - 1..] == [];
      assert s[..1] == ['/'] <==> s[0] == '/';
    }
  }

  lemma AnywhereMeaning(rest: Re, s: string)
    requires Text.NoNewline(s)
    ensures Matches(Cat(ANYWHERE_RE, rest), s) <==>
            Matches(rest, s) || exists k :: 1 <= k <= |s| && s[k - 1] == '/' && Matches(rest, s[k..])
  {
    forall k | 0 <= k <= |s|
      ensures Matches(ANYWHERE_RE, s[..k]) <==> k == 0 || s[k - 1] == '/'
    {
      if k > 0 { EndsInSlash(s[..k]); }
    }
    assert s[0..] == s;
    if k :| 0 <= k <= |s| && Matches(ANYWHERE_RE, s[..k]) && Matches(rest, s[k..]) {
      assert k == 0 || s[k - 1] == '/';
    }
    if Matches(rest, s) {
      assert Matches(ANYWHERE_RE, s[..0]);
    }
    if j :| 1 <= j <= |s| && s[j - 1] == '/' && Matches(rest, s[j..]) {
      assert Matches(ANYWHERE_RE, s[..j]);
    }
  }

  lemma EndsInSlash(t: string)
    requires Text.NoNewline(t) && t != []
    ensures Matches(Cat(Star(Dot), Cat(Chr('/'), Eps)), t) <==> t[|t| - 1] == '/'
  {
    var n := |t| - 1;
    var one := Cat(Chr('/'), Eps);
    if t[n] == '/' {
      StarOfClass(Dot, t[..n]);
      OneSlash(t[n..]);
      assert Matches(Star(Dot), t[..n]) && Matches(one, t[n..]);
    } else {
      forall k | 0 <= k <= |t| ensures !Matches(one, t[k..]) {
        OneSlash(t[k..]);
        assert k < |t| ==> t[k..][|t| - k - 1] == t[n];
      }
    }
  }

  lemma OneSlash(t: string)
    ensures Matches(Cat(Chr('/'), Eps), t) <==> t == ['/']
  {
    CharThen(Chr('/'), Eps, t);
    assert t != [] ==> t == [t[0]] + t[1..];
  }

  /** Glob compilation preserves meaning: on every newline-free path, the compiled regex
      accepts exactly what the pattern directly describes. */
  lemma CompilationPreservesMeaning(pattern: string, path: string)
    requires Text.NoNewline(path)
    ensures Regex.Parse(RegexSource(pattern)).Some?
    ensures Matches(Regex.Parse(RegexSource(pattern)).value, path) <==> PatternFits(pattern, path)
  {
    CompiledPattern(pattern);
    var n := Normalize(pattern);
    if n == ['*'] {
      StarOfClass(Dot, path);
      assert path[..|path|] == path && path[|path|..] == [];
    } else if n != [] && n[|n| - 1] == '/' {
      FragmentMeaning(TrimSlashes(n), Cat(BELOW_RE, Eps), path);
      forall k | 0 <= k <= |path|
        ensures Matches(Cat(BELOW_RE, Eps), path[k..]) <==> (k < |path| ==> path[k] == '/')
      {
        BelowMeaning(path[k..]);
      }
    } else if HasSlash(n) {
      WholeFragment(n, path);
    } else {
      AnywhereMeaning(ToRe(n, Eps), path);
      WholeFragment(n, path);
      forall k | 1 <= k <= |path|
        ensures Matches(ToRe(n, Eps), path[k..]) <==> Fits(n, path[k..])
      {
        WholeFragment(n, path[k..]);
      }
    }
  }

  // ----- the last component ---------------------------------------------------

  function LastComponent(path: string): string {
    if path == [] || path[|path| - 1] == '/' then [] else LastComponent(path[..|path| - 1]) + [path[|path| - 1]]
  }

  predicate HasDoubleStar(p: string) { exists i :: 0 <= i < |p| - 1 && p[i] == '*' && p[i + 1] == '*' }

  /** Without `/` and `**` a fragment fits only strings inside one component. */
  lemma {:induction false} FitsStaysInside(p: string, s: string)
    requires NoSlash(p) && !HasDoubleStar(p) && Fits(p, s)
    ensures NoSlash(s)
    decreases |p|, |s|
  {
    if p != [] {
      assert !DoubleStar(p);
      assert forall i :: 0 <= i < |p| - 2 && p[1..][i] == '*' && p[1..][i + 1] == '*' ==>
               p[i + 1] == '*' && p[i + 2] == '*';
      if p[0] == '*' && Fits(p[1..], s) {
        FitsStaysInside(p[1..], s);
      } else {
        assert s == [s[0]] + s[1..];
        FitsStaysInside(if p[0] == '*' then p else p[1..], s[1..]);
      }
    }
  }

  lemma {:induction false} LastComponentAfter(path: string, k: nat)
    requires 1 <= k <= |path| && path[k - 1] == '/' && NoSlash(path[k..])
    ensures LastComponent(path) == path[k..]
  {
    var n := |path| - 1;
    if k <= n {
      assert path[k..][n - k] == path[n];
      assert path[..n][k..] == path[k..n] && path[k..][..n - k] == path[k..n];
      LastComponentAfter(path[..n], k);
      assert path[k..] == path[k..n] + [path[n]];
    }
  }

  /** A path splits after its last slash, if it has one. */
  lemma {:induction false} LastSlash(path: string) returns (k: nat)
    ensures k <= |path| && NoSlash(path[k..]) && (k > 0 ==> path[k - 1] == '/')
  {
    if path == [] || path[|path| - 1] == '/' {
      k := |path|;
    } else {
      var n := |path| - 1;
      k := LastSlash(path[..n]);
      assert path[k..] == path[..n][k..] + [path[n]];
    }
  }

  lemma {:induction false} LastComponentOfName(path: string)
    requires NoSlash(path)
    ensures LastComponent(path) == path
  {
    if path != [] {
      LastComponentOfName(path[..|path| - 1]);
      assert path == path[..|path| - 1] + [path[|path| - 1]];
    }
  }

  /** A pattern with neither a separator nor `**`, other than the lone star, matches exactly
      when the last component of the path does. */
  lemma BareNameMatchesLastComponent(pattern: string, path: string)
    requires NoSlash(Normalize(pattern)) && !HasDoubleStar(Normalize(pattern)) && Normalize(pattern) != ['*']
    ensures PatternFits(pattern, path) <==> Fits(Normalize(pattern), LastComponent(path))
  {
    var n := Normalize(pattern);
    var last := LastSlash(path);
    if last > 0 {
      LastComponentAfter(path, last);
    } else {
      assert path[0..] == path;
      LastComponentOfName(path);
    }
    if Fits(n, path) {
      FitsStaysInside(n, path);
    }
    if k :| 1 <= k <= |path| && path[k - 1] == '/' && Fits(n, path[k..]) {
      FitsStaysInside(n, path[k..]);
      LastComponentAfter(path, k);
    }
  }

  // ----- the source filter ----------------------------------------------------

  datatype Rule = Rule(includes: bool, pattern: string)

  datatype Filter = Filter(rules: seq<Rule>, hasIncludeRules: bool)

  datatype Parsed = Ok(filter: Filter) | InvalidRule(token: string) | EmptyRule

  predicate HasInclude(rules: seq<Rule>) { exists i :: 0 <= i < |rules| && rules[i].includes }

  /** One non-blank token of a filter specification. */
  function ParseToken(token: string): Option<Rule> {
    if |token| >= 3 && (token[0] == '+' || token[0] == '-') && token[1] == '<' && token[|token| - 1] == '>' then
      Some(Rule(token[0] == '+', Normalize(Text.Trim(token[2..|token| - 1]))))
    else None
  }

  predicate Acceptable(token: string) {
    ParseToken(token).Some? && ParseToken(token).value.pattern != []
  }

  function RulesOf(tokens: seq<string>): seq<Rule> {
    if tokens == [] then []
    else
      var rule := ParseToken(Text.Trim(tokens[0]));
      if Text.Trim(tokens[0]) != [] && rule.Some? then [rule.value] + RulesOf(tokens[1..]) else RulesOf(tokens[1..])
  }

  predicate PassedOver(token: string) { Text.Trim(token) == [] || Acceptable(Text.Trim(token)) }

  /** The rule loop with the tokens before `i` read. */
  ghost predicate Parsing(tokens: seq<string>, i: nat, rules: seq<Rule>, hasIncludeRules: bool) {
    && i <= |tokens| && hasIncludeRules == HasInclude(rules)
    && (forall j :: 0 <= j < |rules| ==> rules[j].pattern != [])
    && (forall j :: 0 <= j < i ==> PassedOver(tokens[j]))
    && rules + RulesOf(tokens[i..]) == RulesOf(tokens)
  }

  lemma ParsingStep(tokens: seq<string>, i: nat, rules: seq<Rule>, hasIncludeRules: bool)
    requires Parsing(tokens, i, rules, hasIncludeRules) && i < |tokens| && PassedOver(tokens[i])
    ensures if Text.Trim(tokens[i]) == [] then Parsing(tokens, i + 1, rules, hasIncludeRules)
            else var rule := ParseToken(Text.Trim(tokens[i])).value;
              Parsing(tokens, i + 1, rules + [rule], hasIncludeRules || rule.includes)
  {
    assert tokens[i..][1..] == tokens[i + 1..];
    if Text.Trim(tokens[i]) != [] {
      var rule := ParseToken(Text.Trim(tokens[i])).value;
      OneMoreRule(rules, rule, false, []);
      Text.Associate(rules, [rule], RulesOf(tokens[i + 1..]));
    }
  }

  /** The rule loop of `SourceFilter::parse` over the comma- and line-separated tokens. */
  method ParseRules(tokens: seq<string>) returns (r: Parsed)
    ensures r.Ok? ==> r.filter.hasIncludeRules == HasInclude(r.filter.rules)
    ensures r.Ok? ==> forall i :: 0 <= i < |r.filter.rules| ==> r.filter.rules[i].pattern != []
    ensures r.Ok? <==> forall i :: 0 <= i < |tokens| ==> PassedOver(tokens[i])
    ensures r.Ok? ==> r.filter.rules == RulesOf(tokens)
  {
    var rules: seq<Rule> := [];
    var hasIncludeRules := false;
    var i := 0;
    while i < |tokens|
      invariant 0 <= i <= |tokens|
      invariant Parsing(tokens, i, rules, hasIncludeRules)
    {
      var token := Text.Trim(tokens[i]);
      if token == [] {
        ParsingStep(tokens, i, rules, hasIncludeRules);
        i := i + 1;
        continue;
      }
      var rule := ParseToken(token);
      if rule.None? {
        return InvalidRule(token);
      }
      if rule.value.pattern == [] {
        return EmptyRule;
      }
      ParsingStep(tokens, i, rules, hasIncludeRules);
      if rule.value.includes {
        hasIncludeRules := true;
      }
      rules := rules + [rule.value];
      i := i + 1;
    }
    assert tokens[|tokens|..] == [] && rules + [] == rules;
    return Ok(Filter(rules, hasIncludeRules));
  }

  /** The tokens of a specification: its lines, each split at commas. */
  function Tokens(spec: string): (r: seq<string>)
    ensures r != []
  {
    if spec == [] then [[]]
    else
      var rest := Tokens(spec[1..]);
      if spec[0] == ',' || spec[0] == '\n' then [[]] + rest else [[spec[0]] + rest[0]] + rest[1..]
  }

  /** The separators in order. */
  function Separators(spec: string): string {
    if spec == [] then []
    else if spec[0] == ',' || spec[0] == '\n' then [spec[0]] + Separators(spec[1..])
    else Separators(spec[1..])
  }

  function Woven(tokens: seq<string>, separators: string): string
    requires |tokens| == |separators| + 1
  {
    if separators == [] then tokens[0] else tokens[0] + [separators[0]] + Woven(tokens[1..], separators[1..])
  }

  /** The tokens hold no separator, and woven with the separators they are the specification. */
  lemma {:induction false} TokensAreExact(spec: string)
    ensures |Tokens(spec)| == |Separators(spec)| + 1
    ensures Woven(Tokens(spec), Separators(spec)) == spec
    ensures forall t :: t in Tokens(spec) ==> ',' !in t && '\n' !in t
  {
    if spec != [] {
      TokensAreExact(spec[1..]);
      var rest, seps := Tokens(spec[1..]), Separators(spec[1..]);
      assert spec == [spec[0]] + spec[1..];
      if spec[0] == ',' || spec[0] == '\n' {
        var tokens, all := [[]] + rest, [spec[0]] + seps;
        assert tokens[1..] == rest && all[1..] == seps;
        assert Woven(tokens, all) == [] + [spec[0]] + Woven(rest, seps);
      } else {
        WovenHead(spec[0], rest, seps);
        var tokens := [[spec[0]] + rest[0]] + rest[1..];
        forall t | t in tokens ensures ',' !in t && '\n' !in t {
          if t != tokens[0] { assert t in rest[1..]; assert t in rest; } else { assert rest[0] in rest; }
        }
      }
    }
  }

  lemma WovenHead(c: char, rest: seq<string>, seps: string)
    requires |rest| == |seps| + 1
    ensures Woven([[c] + rest[0]] + rest[1..], seps) == [c] + Woven(rest, seps)
  {
    var tokens := [[c] + rest[0]] + rest[1..];
    if seps != [] {
      assert tokens[1..] == rest[1..];
      var tail := [seps[0]] + Woven(rest[1..], seps[1..]);
      assert [c] + rest[0] + tail == [c] + (rest[0] + tail);
      Text.Associate([c] + rest[0], [seps[0]], Woven(rest[1..], seps[1..]));
      Text.Associate(rest[0], [seps[0]], Woven(rest[1..], seps[1..]));
    }
  }

  /** `SourceFilter::parse`: without a specification there are no rules. */
  method ParseFilter(spec: Option<string>) returns (r: Parsed)
    ensures spec.None? ==> r == Ok(Filter([], false))
    ensures spec.Some? ==> (r.Ok? <==> forall t :: t in Tokens(spec.value) ==> PassedOver(t))
    ensures spec.Some? && r.Ok? ==> r.filter.rules == RulesOf(Tokens(spec.value))
    ensures r.Ok? ==> r.filter.hasIncludeRules == HasInclude(r.filter.rules)
  {
    if spec.None? {
      return Ok(Filter([], false));
    }
    r := ParseRules(Tokens(spec.value));
    assert forall i :: 0 <= i < |Tokens(spec.value)| ==> Tokens(spec.value)[i] in Tokens(spec.value);
  }

  /** The verdict by its definition: that of the last rule that matches, else whether there
      is no include rule. */
  ghost predicate LastRuleSays(rules: seq<Rule>, rel: string, verdict: bool) {
    if exists i :: LastMatch(rules, rel, i) then exists i :: LastMatch(rules, rel, i) && rules[i].includes == verdict
    else verdict == !HasInclude(rules)
  }

  predicate LastMatch(rules: seq<Rule>, rel: string, i: int) {
    0 <= i < |rules| && PatternFits(rules[i].pattern, rel)
    && forall j :: i < j < |rules| ==> !PatternFits(rules[j].pattern, rel)
  }

  function Verdict(rules: seq<Rule>, otherwise: bool, rel: string): bool {
    if rules == [] then otherwise
    else if PatternFits(rules[|rules| - 1].pattern, rel) then rules[|rules| - 1].includes
    else Verdict(rules[..|rules| - 1], otherwise, rel)
  }

  /** `strip_prefix(root)`, or the path itself where it does not lie under the root. */
  function RelativeTo(root: Path, path: Path): Path {
    if path == root then [] else if Under(path, root) then Tail(path, root) else path
  }

  /** The loop of `SourceFilter::matches`. */
  method FilterMatches(f: Filter, root: Path, path: Path) returns (included: bool)
    requires f.hasIncludeRules == HasInclude(f.rules)
    ensures included == Verdict(f.rules, !HasInclude(f.rules), Normalize(RelativeTo(root, path)))
    ensures LastRuleSays(f.rules, Normalize(RelativeTo(root, path)), included)
  {
    var rel := Normalize(RelativeTo(root, path));
    if f.rules == [] { return true; }
    included := !f.hasIncludeRules;
    var i := 0;
    while i < |f.rules|
      invariant 0 <= i <= |f.rules|
      invariant included == Verdict(f.rules[..i], !f.hasIncludeRules, rel)
    {
      assert f.rules[..i + 1][..i] == f.rules[..i];
      if PatternFits(f.rules[i].pattern, rel) {
        included := f.rules[i].includes;
      }
      i := i + 1;
    }
    assert f.rules[..|f.rules|] == f.rules;
    VerdictIsLast(f.rules, rel);
  }

  /** The last rule that matches, or -1. */
  function Last(rules: seq<Rule>, rel: string): (i: int)
    ensures -1 <= i < |rules|
  {
    if rules == [] then -1
    else if PatternFits(rules[|rules| - 1].pattern, rel) then |rules| - 1
    else Last(rules[..|rules| - 1], rel)
  }

  lemma {:induction false} LastFits(rules: seq<Rule>, rel: string)
    ensures Last(rules, rel) >= 0 ==> PatternFits(rules[Last(rules, rel)].pattern, rel)
    ensures forall j :: Last(rules, rel) < j < |rules| ==> !PatternFits(rules[j].pattern, rel)
  {
    if rules != [] && !PatternFits(rules[|rules| - 1].pattern, rel) {
      var front := rules[..|rules| - 1];
      LastFits(front, rel);
      assert forall j :: 0 <= j < |front| ==> rules[j] == front[j];
    }
  }

  lemma {:induction false} VerdictOf(rules: seq<Rule>, otherwise: bool, rel: string)
    ensures Verdict(rules, otherwise, rel) ==
            if Last(rules, rel) < 0 then otherwise else rules[Last(rules, rel)].includes
  {
    if rules != [] && !PatternFits(rules[|rules| - 1].pattern, rel) {
      VerdictOf(rules[..|rules| - 1], otherwise, rel);
    }
  }

  lemma VerdictIsLast(rules: seq<Rule>, rel: string)
    ensures LastRuleSays(rules, rel, Verdict(rules, !HasInclude(rules), rel))
  {
    VerdictOf(rules, !HasInclude(rules), rel);
    LastFits(rules, rel);
    if Last(rules, rel) >= 0 {
      assert LastMatch(rules, rel, Last(rules, rel));
    }
  }

  lemma OneMoreRule(rules: seq<Rule>, rule: Rule, otherwise: bool, rel: string)
    ensures HasInclude(rules + [rule]) <==> HasInclude(rules) || rule.includes
    ensures Verdict(rules + [rule], otherwise, rel)
         == if PatternFits(rule.pattern, rel) then rule.includes else Verdict(rules, otherwise, rel)
  {
    var more := rules + [rule];
    assert more[..|rules|] == rules && more[|rules|] == rule;
    if i :| 0 <= i < |rules| && rules[i].includes { assert more[i].includes; }
    if rule.includes { assert more[|rules|].includes; }
  }

  /** Appending an exclude rule never admits a path. Appending an include rule can drop one
      only if it is the first include rule, the path was admitted by default and it does not
      match the new rule; then it always does. */
  lemma AppendingRules(rules: seq<Rule>, rule: Rule, rel: string)
    ensures var before := Verdict(rules, !HasInclude(rules), rel);
            var after := Verdict(rules + [rule], !HasInclude(rules + [rule]), rel);
            && (!rule.includes ==> after ==> before)
            && (rule.includes ==>
                  (before && !after <==>
                     !HasInclude(rules) && !PatternFits(rule.pattern, rel)
                     && forall i :: 0 <= i < |rules| ==> !PatternFits(rules[i].pattern, rel)))
  {
    OneMoreRule(rules, rule, !HasInclude(rules + [rule]), rel);
    VerdictOf(rules, !HasInclude(rules), rel);
    VerdictOf(rules, !HasInclude(rules + [rule]), rel);
    LastFits(rules, rel);
  }

  // ----- specifications as they are written -----------------------------------

  /** A rule with the blanks around it and inside its brackets. */
  datatype Written = Written(lead: string, includes: bool, inner: string, pattern: string, after: string, tail: string)

  predicate Separator(c: char) { c == ',' || c == '\n' }

  predicate NoSeparator(s: string) { forall i :: 0 <= i < |s| ==> !Separator(s[i]) }

  predicate Readable(w: Written) {
    && Text.Blank(w.lead) && Text.Blank(w.inner) && Text.Blank(w.after) && Text.Blank(w.tail)
    && NoSeparator(PrintRule(w)) && Text.Trimmed(w.pattern) && w.pattern != []
  }

  function Bracketed(w: Written): string {
    [if w.includes then '+' else '-', '<'] + (w.inner + w.pattern + w.after) + ['>']
  }

  function PrintRule(w: Written): string { w.lead + Bracketed(w) + w.tail }

  /** Rules one after the other, `separators[i]` after the i-th. */
  function PrintSpec(rules: seq<Written>, separators: string): string
    requires rules != [] && |separators| == |rules| - 1
  {
    if |rules| == 1 then PrintRule(rules[0])
    else PrintRule(rules[0]) + [separators[0]] + PrintSpec(rules[1..], separators[1..])
  }

  /** `r` is `p` with slashes for its backslashes. */
  predicate Slashed(p: string, r: string) {
    |r| == |p| && forall i :: 0 <= i < |p| ==> (p[i] == '\\' ==> r[i] == '/') && (p[i] != '\\' ==> r[i] == p[i])
  }

  lemma {:induction false} OneToken(t: string)
    requires NoSeparator(t)
    ensures Tokens(t) == [t]
  {
    if t != [] {
      OneToken(t[1..]);
      assert [t[0]] + t[1..] == t && [t[1..]][1..] == [];
    }
  }

  lemma {:induction false} FirstToken(t: string, c: char, rest: string)
    requires NoSeparator(t) && Separator(c)
    ensures Tokens(t + [c] + rest) == [t] + Tokens(rest)
  {
    var s := t + [c] + rest;
    if t == [] {
      assert s[0] == c && s[1..] == rest;
    } else {
      assert s[0] == t[0] && s[1..] == t[1..] + [c] + rest;
      FirstToken(t[1..], c, rest);
      var more := [t[1..]] + Tokens(rest);
      assert more[0] == t[1..] && more[1..] == Tokens(rest);
      assert [t[0]] + t[1..] == t;
    }
  }

  /** One rule as it is written. */
  lemma RuleAsWritten(w: Written)
    requires Readable(w)
    ensures var token := Text.Trim(PrintRule(w));
            && token != [] && ParseToken(token).Some? && Acceptable(token)
            && ParseToken(token).value.includes == w.includes
            && Slashed(w.pattern, ParseToken(token).value.pattern)
  {
    var b, inside := Bracketed(w), w.inner + w.pattern + w.after;
    Text.TrimExact(w.lead, b, w.tail);
    Text.TrimExact(w.inner, w.pattern, w.after);
    assert b[0] == (if w.includes then '+' else '-') && b[1] == '<' && b[|b| - 1] == '>';
    assert b[2..|b| - 1] == inside;
  }

  /** A specification gives its rules in order: `+<...>` includes, `-<...>` excludes, and the
      pattern is what stands between the brackets, with slashes for backslashes. */
  lemma {:induction false} RulesAsWritten(rules: seq<Written>, separators: string)
    requires rules != [] && |separators| == |rules| - 1
    requires forall i :: 0 <= i < |rules| ==> Readable(rules[i])
    requires forall i :: 0 <= i < |separators| ==> Separator(separators[i])
    ensures var tokens := Tokens(PrintSpec(rules, separators));
            && (forall t :: t in tokens ==> PassedOver(t))
            && |RulesOf(tokens)| == |rules|
            && forall i :: 0 <= i < |rules| ==>
                 RulesOf(tokens)[i].includes == rules[i].includes
                 && Slashed(rules[i].pattern, RulesOf(tokens)[i].pattern)
    decreases |rules|
  {
    hide ParseToken, PrintRule, Slashed, Text.Trim, Tokens, Acceptable;
    var w := rules[0];
    var t := PrintRule(w);
    RuleAsWritten(w);
    if |rules| == 1 {
      OneToken(t);
      OneRule(t, []);
    } else {
      var rest := PrintSpec(rules[1..], separators[1..]);
      RulesAsWritten(rules[1..], separators[1..]);
      FirstToken(t, separators[0], rest);
      OneRule(t, Tokens(rest));
      assert forall i :: 1 <= i < |rules| ==> rules[i] == rules[1..][i - 1];
    }
  }

  lemma OneRule(t: string, rest: seq<string>)
    requires Text.Trim(t) != [] && ParseToken(Text.Trim(t)).Some?
    ensures RulesOf([t] + rest) == [ParseToken(Text.Trim(t)).value] + RulesOf(rest)
  {
    assert ([t] + rest)[1..] == rest;
  }

  // ----- patterns without stars -------------------------------------------------

  predicate Literal(p: string) { forall i :: 0 <= i < |p| ==> p[i] != '*' && p[i] != '?' && p[i] != '\\' }

  lemma {:induction false} LiteralFits(p: string, s: string)
    requires Literal(p)
    ensures Fits(p, s) <==> s == p
    decreases |p|
  {
    if p != [] && s != [] {
      LiteralFits(p[1..], s[1..]);
      assert p == [p[0]] + p[1..] && s == [s[0]] + s[1..];
    }
  }

  /** `dir/` takes the directory and all that lies below it; a path with a slash inside takes
      itself; a bare name takes itself in any directory. */
  lemma LiteralPatterns(name: string, path: string)
    requires Literal(name) && name != [] && name[|name| - 1] != '/'
    ensures PatternFits(name + "/", path) <==> path == name || name + "/" <= path
    ensures HasSlash(name) ==> (PatternFits(name, path) <==> path == name)
    ensures !HasSlash(name) ==>
              (PatternFits(name, path) <==>
               path == name || (|path| > |name| && path[|path| - |name| - 1] == '/' && path[|path| - |name|..] == name))
  {
    DirectoryFits(name, path);
    assert Normalize(name) == name && name != ['*'];
    LiteralFits(name, path);
    if !HasSlash(name) {
      NameFits(name, path);
    }
  }

  lemma DirectoryFits(name: string, path: string)
    requires Literal(name) && name != [] && name[|name| - 1] != '/'
    ensures PatternFits(name + "/", path) <==> path == name || name + "/" <= path
  {
    var n := name + "/";
    assert Normalize(n) == n && n[|n| - 1] == '/' && n[..|n| - 1] == name && n != ['*'];
    assert TrimSlashes(name) == name;
    assert TrimSlashes(n) == name;
    hide Normalize, TrimSlashes;
    forall k | 0 <= k <= |path| ensures Fits(name, path[..k]) <==> path[..k] == name { LiteralFits(name, path[..k]); }
    hide Fits;
    if path == name { assert path[..|path|] == name; }
    if n <= path { assert path[..|name|] == name && path[|name|] == '/'; }
    if k :| 0 <= k <= |path| && Fits(name, path[..k]) && (k < |path| ==> path[k] == '/') {
      assert path[..k] == name && k == |name|;
      assert k < |path| ==> n == path[..k + 1];
      assert k == |path| ==> path == name;
    }
  }

  lemma NameFits(name: string, path: string)
    requires Literal(name) && name != [] && !HasSlash(name)
    ensures PatternFits(name, path) <==>
              path == name || (|path| > |name| && path[|path| - |name| - 1] == '/' && path[|path| - |name|..] == name)
  {
    assert Normalize(name) == name && name[0] != '*';
    hide Normalize;
    assert name[|name| - 1] != '/';
    LiteralFits(name, path);
    forall k | 0 <= k <= |path| ensures Fits(name, path[k..]) <==> path[k..] == name { LiteralFits(name, path[k..]); }
    hide Fits;
    var at := |path| - |name|;
    if at > 0 && path[at - 1] == '/' && path[at..] == name { assert Fits(name, path[at..]); }
    if k :| 1 <= k <= |path| && path[k - 1] == '/' && Fits(name, path[k..]) {
      assert path[k..] == name && k == at;
    }
  }

  /** The filter looks at the path from the root, with slashes for backslashes. */
  lemma RelativePath(root: Path, t: string, other: Path)
    requires other != root && !Under(other, root)
    ensures Slashed(t, Normalize(RelativeTo(root, root + "/" + t)))
    ensures Slashed(other, Normalize(RelativeTo(root, other)))
  {
    var p := root + "/" + t;
    assert p[|root|] == '/' && p[|root| + 1..] == t && root <= p;
  }
}

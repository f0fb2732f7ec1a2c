// The part of the Rust regex language that source_scanner.rs emits: its syntax as a
// parser of regex strings and its meaning as a language.
module Regex {
  import opened Paths
  import Text

  datatype Re = Eps | Chr(c: char) | Dot | NotChr(c: char) | Cat(a: Re, b: Re) | Star(r: Re) | Opt(r: Re)

  /** `s` is in the language of `r`. */
  ghost predicate Matches(r: Re, s: string)
    decreases r, |s|
  {
    match r
    case Eps => s == []
    case Chr(c) => s == [c]
    case Dot => |s| == 1 && s[0] != '\n'
    case NotChr(c) => |s| == 1 && s[0] != c
    case Cat(a, b) => exists k :: 0 <= k <= |s| && Matches(a, s[..k]) && Matches(b, s[k..])
    case Opt(q) => s == [] || Matches(q, s)
    case Star(q) => s == [] || exists k :: 0 < k <= |s| && Matches(q, s[..k]) && Matches(r, s[k..])
  }

  predicate IsMeta(c: char) {
    c in {'.', '+', '(', ')', '[', ']', '{', '}', '^', '$', '|', '\\'}
  }

  predicate IsQuantifier(c: char) { c == '*' || c == '?' }

  /** A regex without its anchors: items up to the end, a closing parenthesis or `$`. */
  function ParseItems(s: string): (r: Option<(Re, string)>)
    ensures r.Some? ==> |r.value.1| <= |s|
    decreases |s|, 1
  {
    if s == [] || s[0] == ')' || s[0] == '$' then Some((Eps, s))
    else
      var atom := ParseAtom(s);
      if atom.None? then None
      else
        var (re, rest) := atom.value;
        var quantified := rest != [] && IsQuantifier(rest[0]);
        var after := if quantified then rest[1..] else rest;
        if quantified && after != [] && IsQuantifier(after[0]) then None
        else
          var items := ParseItems(after);
          if items.None? then None
          else Some((Cat(if !quantified then re else if rest[0] == '*' then Star(re) else Opt(re),
                         items.value.0), items.value.1))
  }

  /** One atom: an escape, `.`, `[^c]`, a group `(?:...)` or a literal. */
  function ParseAtom(s: string): (r: Option<(Re, string)>)
    requires s != []
    ensures r.Some? ==> |r.value.1| < |s|
    decreases |s|, 0
  {
    if s[0] == '\\' then
      if |s| > 1 && IsMeta(s[1]) then Some((Chr(s[1]), s[2..])) else None
    else if s[0] == '.' then Some((Dot, s[1..]))
    else if s[0] == '[' then
      if |s| >= 4 && s[1] == '^' && s[3] == ']' && s[2] != '\\' && s[2] != ']' && s[2] != '[' then
        Some((NotChr(s[2]), s[4..]))
      else None
    else if s[0] == '(' then
      if |s| >= 3 && s[1] == '?' && s[2] == ':' then
        var inner := ParseItems(s[3..]);
        if inner.Some? && inner.value.1 != [] && inner.value.1[0] == ')' then
          Some((inner.value.0, inner.value.1[1..]))
        else None
      else None
    else if IsMeta(s[0]) || IsQuantifier(s[0]) then None
    else Some((Chr(s[0]), s[1..]))
  }

  /** `Regex::new` on `^...$`. */
  function Parse(s: string): Option<Re> {
    if s == [] || s[0] != '^' then None
    else
      var body := ParseItems(s[1..]);
      if body.Some? && body.value.1 == ['$'] then Some(body.value.0) else None
  }

  // ----- facts about the language ---------------------------------------------

  predicate NoSlash(s: string) { forall i :: 0 <= i < |s| ==> s[i] != '/' }

  /** `r` matches exactly the one-character strings that `r0` does; what its star matches. */
  lemma {:induction false} StarOfClass(r: Re, s: string)
    requires r.Dot? || r == NotChr('/')
    ensures Matches(Star(r), s) <==> if r.Dot? then Text.NoNewline(s) else NoSlash(s)
    decreases |s|
  {
    if s != [] {
      StarOfClass(r, s[1..]);
      assert s == [s[0]] + s[1..];
      assert |s[..1]| == 1 && s[..1][0] == s[0];
      if Matches(Star(r), s) {
        var k :| 0 < k <= |s| && Matches(r, s[..k]) && Matches(Star(r), s[k..]);
        assert k == 1;
      }
    }
  }

  /** A class starred and followed by `rest`: take none of it, or one character and repeat. */
  lemma StarThen(r: Re, rest: Re, s: string)
    requires r.Dot? || r == NotChr('/')
    ensures Matches(Cat(Star(r), rest), s) <==>
            Matches(rest, s) ||
            (s != [] && s[0] != (if r.Dot? then '\n' else '/') && Matches(Cat(Star(r), rest), s[1..]))
  {
    if Matches(Cat(Star(r), rest), s) {
      var k :| 0 <= k <= |s| && Matches(Star(r), s[..k]) && Matches(rest, s[k..]);
      StarOfClass(r, s[..k]);
      if k == 0 {
        assert s[0..] == s;
      } else {
        StarOfClass(r, s[1..][..k - 1]);
        assert s[1..][..k - 1] == s[1..k] && s[1..][k - 1..] == s[k..];
        assert forall i :: 0 <= i < k - 1 ==> s[1..][i] == s[i + 1];
      }
    }
    if Matches(rest, s) {
      assert s[..0] == [] && s[0..] == s;
    }
    if s != [] && s[0] != (if r.Dot? then '\n' else '/') && Matches(Cat(Star(r), rest), s[1..]) {
      StarThenMore(r, rest, s);
    }
  }

  lemma StarThenMore(r: Re, rest: Re, s: string)
    requires r.Dot? || r == NotChr('/')
    requires s != [] && s[0] != (if r.Dot? then '\n' else '/') && Matches(Cat(Star(r), rest), s[1..])
    ensures Matches(Cat(Star(r), rest), s)
  {
    var j :| 0 <= j <= |s| - 1 && Matches(Star(r), s[1..][..j]) && Matches(rest, s[1..][j..]);
    StarOfClass(r, s[1..][..j]);
    assert s[1..][j..] == s[j + 1..];
    assert forall i :: 1 <= i < j + 1 ==> s[i] == s[1..][..j][i - 1];
    StarOfClass(r, s[..j + 1]);
  }

  /** One character followed by `rest`. */
  lemma CharThen(r: Re, rest: Re, s: string)
    requires r.Chr? || r.Dot? || r.NotChr?
    ensures Matches(Cat(r, rest), s) <==> s != [] && Matches(r, s[..1]) && Matches(rest, s[1..])
  {
    if Matches(Cat(r, rest), s) {
      var k :| 0 <= k <= |s| && Matches(r, s[..k]) && Matches(rest, s[k..]);
      assert k == 1;
    }
  }
}

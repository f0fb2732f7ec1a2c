// String helpers shared by the models: the Rust standard library operations the
// modelled code calls, at the level of Unicode scalar values.
module Text {

  /** Rust's `char::is_whitespace`: the Unicode White_Space property. */
  predicate IsWhitespace(c: char) {
    var n := c as int;
    || 0x9 <= n <= 0xD || n == 0x20 || n == 0x85 || n == 0xA0 || n == 0x1680
    || 0x2000 <= n <= 0x200A || n == 0x2028 || n == 0x2029 || n == 0x202F
    || n == 0x205F || n == 0x3000
  }

  /** Rust's `u8::is_ascii_whitespace` (vertical tab is not included). */
  predicate IsAsciiWhitespace(c: char) {
    c == ' ' || c == '\t' || c == '\n' || c as int == 0xC || c == '\r'
  }

  /** The code points with the Unicode property White_Space, one by one. */
  const WHITE_SPACE: set<int> := {
    0x09, 0x0A, 0x0B, 0x0C, 0x0D, 0x20, 0x85, 0xA0, 0x1680, 0x2000, 0x2001, 0x2002, 0x2003, 0x2004, 0x2005, 0x2006,
    0x2007, 0x2008, 0x2009, 0x200A, 0x2028, 0x2029, 0x202F, 0x205F, 0x3000
  }

  lemma WhitespaceIsTheProperty(c: char)
    ensures IsWhitespace(c) <==> c as int in WHITE_SPACE
  {
  }

  predicate NoWhitespace(s: string) {
    forall i :: 0 <= i < |s| ==> !IsWhitespace(s[i])
  }

  predicate NoNewline(s: string) {
    forall i :: 0 <= i < |s| ==> s[i] != '\n'
  }

  /** `str::trim_end`. */
  function TrimEnd(s: string): string {
    if s == [] || !IsWhitespace(s[|s| - 1]) then s else TrimEnd(s[..|s| - 1])
  }

  /** `str::trim_start`. */
  function TrimStart(s: string): string {
    if s == [] || !IsWhitespace(s[0]) then s else TrimStart(s[1..])
  }

  /** `str::trim`. */
  function Trim(s: string): string {
    TrimEnd(TrimStart(s))
  }

  predicate Blank(s: string) { forall i :: 0 <= i < |s| ==> IsWhitespace(s[i]) }

  lemma {:induction false} TrimEndExact(s: string, blank: string)
    requires Blank(blank) && (s == [] || !IsWhitespace(s[|s| - 1]))
    ensures TrimEnd(s + blank) == s
  {
    if blank == [] {
      assert s + blank == s;
    } else {
      var n := |blank| - 1;
      assert (s + blank)[..|s| + n] == s + blank[..n];
      TrimEndExact(s, blank[..n]);
    }
  }

  lemma {:induction false} TrimStartExact(blank: string, s: string)
    requires Blank(blank) && (s == [] || !IsWhitespace(s[0]))
    ensures TrimStart(blank + s) == s
  {
    if blank == [] {
      assert blank + s == s;
    } else {
      assert (blank + s)[1..] == blank[1..] + s;
      TrimStartExact(blank[1..], s);
    }
  }

  predicate Trimmed(s: string) { s == [] || (!IsWhitespace(s[0]) && !IsWhitespace(s[|s| - 1])) }

  /** Trimming takes the blanks on both sides and nothing else. */
  lemma TrimExact(before: string, s: string, after: string)
    requires Blank(before) && Blank(after) && Trimmed(s)
    ensures Trim(before + s + after) == s
  {
    if s == [] {
      var all := before + s + after;
      assert all == before + after && all + [] == all;
      TrimStartExact(all, []);
    } else {
      Associate(before, s, after);
      TrimStartExact(before, s + after);
      TrimEndExact(s, after);
    }
  }

  lemma {:induction false} TrimStartBlank(s: string)
    ensures TrimStart(s) == [] <==> Blank(s)
    ensures TrimStart(s) != [] ==> !IsWhitespace(TrimStart(s)[0])
  {
    if s != [] && IsWhitespace(s[0]) {
      TrimStartBlank(s[1..]);
      assert forall i :: 1 <= i < |s| ==> s[i] == s[1..][i - 1];
    }
  }

  lemma {:induction false} TrimEndKeepsFirst(s: string)
    requires s != [] && !IsWhitespace(s[0])
    ensures TrimEnd(s) != []
  {
    if IsWhitespace(s[|s| - 1]) { TrimEndKeepsFirst(s[..|s| - 1]); }
  }

  /** Nothing is left exactly when all was blank. */
  lemma TrimIsBlank(s: string)
    ensures Trim(s) == [] <==> Blank(s)
  {
    TrimStartBlank(s);
    if TrimStart(s) != [] { TrimEndKeepsFirst(TrimStart(s)); }
  }

  /** `str::replace`: non-overlapping occurrences, leftmost first. */
  function ReplaceAll(s: string, pattern: string, with: string): string
    requires pattern != []
  {
    if s == [] then []
    else if pattern <= s then with + ReplaceAll(s[|pattern|..], pattern, with)
    else [s[0]] + ReplaceAll(s[1..], pattern, with)
  }

  /** True when `pattern` occurs in `s` at offset `i`. */
  predicate OccursAt(s: string, pattern: string, i: int) {
    0 <= i <= |s| - |pattern| && s[i..i + |pattern|] == pattern
  }

  /** `str.find` from `i`: the least offset where `pattern` occurs, or -1. */
  function FindFrom(s: string, pattern: string, i: nat): (r: int)
    ensures r == -1 || i <= r <= |s| - |pattern|
    decreases |s| - i
  {
    if i + |pattern| > |s| then -1
    else if s[i..i + |pattern|] == pattern then i
    else if i < |s| then FindFrom(s, pattern, i + 1)
    else -1
  }

  lemma {:induction false} FindFromIs(s: string, pattern: string, i: nat)
    ensures var r := FindFrom(s, pattern, i);
            && (r >= 0 ==> i <= r && OccursAt(s, pattern, r))
            && (forall k :: i <= k && OccursAt(s, pattern, k) ==> 0 <= r <= k)
    decreases |s| - i
  {
    if i + |pattern| <= |s| && s[i..i + |pattern|] != pattern && i < |s| {
      FindFromIs(s, pattern, i + 1);
    }
  }

  /** `[String]::join` with a one-character separator. */
  function Join(parts: seq<string>, separator: char): string {
    if parts == [] then []
    else if |parts| == 1 then parts[0]
    else parts[0] + [separator] + Join(parts[1..], separator)
  }

  lemma Associate<T>(a: seq<T>, b: seq<T>, c: seq<T>)
    ensures a + (b + c) == a + b + c
  {
  }

  lemma AssociateFour<T>(a: seq<T>, b: seq<T>, c: seq<T>, d: seq<T>)
    ensures a + (b + c + d) == a + b + c + d
  {
  }

  lemma SameFront<T>(a: seq<T>, x: seq<T>, y: seq<T>)
    ensures a + x == a + y <==> x == y
  {
    assert (a + x)[|a|..] == x && (a + y)[|a|..] == y;
  }

  function Flatten<T>(parts: seq<seq<T>>): seq<T> {
    if parts == [] then [] else parts[0] + Flatten(parts[1..])
  }

  lemma {:induction false} FlattenAppend<T>(a: seq<seq<T>>, b: seq<seq<T>>)
    ensures Flatten(a + b) == Flatten(a) + Flatten(b)
  {
    if a == [] {
      assert a + b == b;
    } else {
      assert (a + b)[1..] == a[1..] + b;
      FlattenAppend(a[1..], b);
    }
  }
}

// code_only of platform_boundary_research.py: Rust comments and literals blanked in place,
// offsets and newlines kept. `word` says which characters are alphanumeric or `_`.
module Blanker {
  import opened Paths
  import opened Text

  /** What the scan does at one place: how far it goes, whether it blanks, the depth after. */
  datatype Token = Token(length: nat, blank: bool, depth: nat)

  predicate Starts(s: string, a: char, b: char) { |s| > 1 && s[0] == a && s[1] == b }

  function Hashes(s: string): (n: nat)
    ensures n <= |s|
  {
    if s == [] || s[0] != '#' then 0 else 1 + Hashes(s[1..])
  }

  /** Length of a raw string's opening, `r`, hashes and quote after an optional `b`; 0 if none. */
  function RawOpening(s: string): (n: nat)
    ensures n <= |s|
  {
    var b := if s != [] && s[0] == 'b' then 1 else 0;
    if |s| > b && s[b] == 'r' && Hashes(s[b + 1..]) <= 255
       && b + 1 + Hashes(s[b + 1..]) < |s| && s[b + 1 + Hashes(s[b + 1..])] == '"'
    then b + 2 + Hashes(s[b + 1..]) else 0
  }

  function Repeat(c: char, n: nat): (r: string)
    ensures |r| == n
  {
    seq(n, i => c)
  }

  /** End of a raw string: its terminator, or the end of the text. */
  function RawLength(s: string): (n: nat)
    requires RawOpening(s) > 0
    ensures 1 < n <= |s|
  {
    var terminator := ['"'] + Repeat('#', Hashes(s[(if s[0] == 'b' then 1 else 0) + 1..]));
    var at := FindFrom(s, terminator, RawOpening(s));
    if at < 0 then |s| else at + |terminator|
  }

  /** Length of a character literal: a quote, one escape or plain character, a quote; 0 if none. */
  function CharLength(s: string): (n: nat)
    ensures n == 0 || 3 <= n <= |s|
  {
    var b := if s != [] && s[0] == 'b' then 1 else 0;
    if |s| <= b || s[b] != '\'' then 0
    else if |s| > b + 3 && s[b + 1] == '\\' && s[b + 2] != '\n' && s[b + 3] == '\'' then b + 4
    else if |s| > b + 2 && s[b + 1] != '\\' && s[b + 1] != '\'' && s[b + 1] != '\n' && s[b + 2] == '\'' then b + 3
    else 0
  }

  /** End of a string literal whose opening quote is before `i`. */
  function StringEnd(s: string, i: nat): (n: nat)
    requires i <= |s|
    ensures i <= n <= |s|
    decreases |s| - i
  {
    if i == |s| then i
    else if s[i] == '\\' then if i + 2 <= |s| then StringEnd(s, i + 2) else |s|
    else if s[i] == '"' then i + 1
    else StringEnd(s, i + 1)
  }

  /** End of a line comment: before the newline that ends it, or the end of the text. */
  function LineCommentLength(s: string): (n: nat)
    requires |s| > 1
    ensures 1 < n <= |s|
  {
    var at := FindFrom(s, ['\n'], 2);
    if at < 0 then |s| else at
  }

  /** The branches of the scan at the start of `s`, with `previous` the character before it. */
  function Next(word: char -> bool, previous: Option<char>, s: string, depth: nat): (t: Token)
    requires s != []
    ensures 0 < t.length <= |s|
  {
    if depth > 0 then
      if Starts(s, '/', '*') then Token(2, true, depth + 1)
      else if Starts(s, '*', '/') then Token(2, true, depth - 1)
      else Token(1, true, depth)
    else if (previous.None? || !word(previous.value)) && RawOpening(s) > 0 then Token(RawLength(s), true, 0)
    else if CharLength(s) > 0 then Token(CharLength(s), true, 0)
    else if Starts(s, '/', '/') then Token(LineCommentLength(s), true, 0)
    else if Starts(s, '/', '*') then Token(2, true, 1)
    else if s[0] == '"' then Token(StringEnd(s, 1), true, 0)
    else Token(1, false, 0)
  }

  /** A blank for every character but a newline. */
  function Erase(s: string): (r: string)
    ensures |r| == |s|
  {
    seq(|s|, i requires 0 <= i < |s| => if s[i] == '\n' then '\n' else ' ')
  }

  function Stretch(blank: bool, s: string): (r: string)
    ensures |r| == |s|
  {
    if blank then Erase(s) else s
  }

  function Blanked(word: char -> bool, previous: Option<char>, s: string, depth: nat): (r: string)
    ensures |r| == |s|
    decreases |s|
  {
    if s == [] then []
    else
      var t := Next(word, previous, s, depth);
      Stretch(t.blank, s[..t.length]) + Blanked(word, Some(s[t.length - 1]), s[t.length..], t.depth)
  }

  // ----- the scanner ----------------------------------------------------------

  /** Overwrite a stretch of the output with blanks, newlines excepted. */
  method EraseRange(out: array<char>, lo: nat, hi: nat)
    requires lo <= hi <= out.Length
    modifies out
    ensures out[..] == EraseIn(old(out[..]), lo, hi)
  {
    var k := lo;
    while k < hi
      invariant lo <= k <= hi
      invariant forall j :: 0 <= j < out.Length && !(lo <= j < k) ==> out[j] == old(out[j])
      invariant forall j :: lo <= j < k ==> out[j] == if old(out[j]) == '\n' then '\n' else ' '
    {
      if out[k] != '\n' {
        out[k] := ' ';
      }
      k := k + 1;
    }
    ghost var all, mid := out[..], Erase(old(out[lo..hi]));
    assert forall j :: 0 <= j < |mid| ==> mid[j] == if old(out[lo..hi])[j] == '\n' then '\n' else ' ';
    assert forall j :: 0 <= j < hi - lo ==> old(out[lo..hi])[j] == old(out[lo + j]);
    assert all[lo..hi] == mid;
    assert all[..lo] == old(out[..lo]) && all[hi..] == old(out[hi..]);
    assert all == all[..lo] + all[lo..hi] + all[hi..];
    ghost var was := old(out[..]);
    assert was[..lo] == old(out[..lo]) && was[lo..hi] == old(out[lo..hi]) && was[hi..] == old(out[hi..]);
  }

  function Before(text: string, i: nat): Option<char>
    requires i <= |text|
  {
    if i == 0 then None else Some(text[i - 1])
  }

  /** The output after `i` characters: finished text, then the text still to scan; together
      with the scan of the rest they make `total`. */
  ghost predicate Progress(word: char -> bool, text: string, total: string, out: string, i: nat, depth: nat) {
    && i <= |text| && |out| == |text| && out[i..] == text[i..]
    && out[..i] + Blanked(word, Before(text, i), text[i..], depth) == total
  }

  function EraseIn(out: string, lo: nat, hi: nat): string
    requires lo <= hi <= |out|
  {
    out[..lo] + Erase(out[lo..hi]) + out[hi..]
  }

  /** The output once the token at `i` is dealt with. */
  function Written(out: string, i: nat, end: nat, blank: bool): string
    requires i <= end <= |out|
  {
    if blank then EraseIn(out, i, end) else out
  }

  lemma SpliceFacts(out: string, text: string, i: nat, end: nat, blank: bool)
    requires |out| == |text| && i <= end <= |text| && out[i..] == text[i..]
    ensures var out' := Written(out, i, end, blank);
            && |out'| == |out| && out'[end..] == text[end..]
            && out'[..end] == out[..i] + Stretch(blank, text[i..end])
  {
    assert out[i..end] == out[i..][..end - i] && text[i..end] == text[i..][..end - i];
    assert out[end..] == out[i..][end - i..] && text[end..] == text[i..][end - i..];
    assert out[..end] == out[..i] + out[i..end];
  }

  lemma Reindex(text: string, i: nat, n: nat)
    requires 0 < n && i + n <= |text|
    ensures text[i..][..n] == text[i..i + n] && text[i..][n..] == text[i + n..]
    ensures Some(text[i..][n - 1]) == Before(text, i + n)
  {
  }

  lemma FirstToken(word: char -> bool, previous: Option<char>, s: string, depth: nat, t: Token)
    requires s != [] && t == Next(word, previous, s, depth)
    ensures Blanked(word, previous, s, depth)
         == Stretch(t.blank, s[..t.length]) + Blanked(word, Some(s[t.length - 1]), s[t.length..], t.depth)
  {
  }

  lemma Unfold(word: char -> bool, text: string, i: nat, depth: nat, t: Token, front: string)
    requires i < |text| && t == Next(word, Before(text, i), text[i..], depth)
    ensures i + t.length <= |text|
    ensures front + Blanked(word, Before(text, i), text[i..], depth)
         == front + Stretch(t.blank, text[i..i + t.length])
              + Blanked(word, Before(text, i + t.length), text[i + t.length..], t.depth)
  {
    hide *;
    var s := text[i..];
    FirstToken(word, Before(text, i), s, depth, t);
    Reindex(text, i, t.length);
    Associate(front, Stretch(t.blank, s[..t.length]), Blanked(word, Some(s[t.length - 1]), s[t.length..], t.depth));
  }

  lemma Advance(word: char -> bool, text: string, total: string, out: string, i: nat, depth: nat, t: Token)
    requires Progress(word, text, total, out, i, depth) && i < |text|
    requires t == Next(word, Before(text, i), text[i..], depth)
    ensures i + t.length <= |text|
    ensures Progress(word, text, total, Written(out, i, i + t.length, t.blank), i + t.length, t.depth)
  {
    hide Next, Blanked, Stretch, EraseIn, Written;
    Unfold(word, text, i, depth, t, out[..i]);
    SpliceFacts(out, text, i, i + t.length, t.blank);
  }

  /** The branches of `code_only` at one index. */
  method ScanToken(word: char -> bool, text: string, index: nat, blockDepth: nat) returns (t: Token)
    requires index < |text|
    ensures t == Next(word, Before(text, index), text[index..], blockDepth)
  {
    var rest := text[index..];
    if blockDepth > 0 {
      if Starts(rest, '/', '*') { return Token(2, true, blockDepth + 1); }
      if Starts(rest, '*', '/') { return Token(2, true, blockDepth - 1); }
      return Token(1, true, blockDepth);
    }
    var raw := 0;
    if index == 0 || !word(text[index - 1]) {
      raw := RawOpening(rest);
    }
    if raw > 0 { return Token(RawLength(rest), true, 0); }
    var character := CharLength(rest);
    if character > 0 { return Token(character, true, 0); }
    if Starts(rest, '/', '/') { return Token(LineCommentLength(rest), true, 0); }
    if Starts(rest, '/', '*') { return Token(2, true, 1); }
    if rest[0] == '"' { return Token(StringEnd(rest, 1), true, 0); }
    return Token(1, false, 0);
  }

  /** `code_only`. */
  method CodeOnly(word: char -> bool, text: string) returns (result: string)
    ensures result == Blanked(word, None, text, 0)
  {
    hide Next, Blanked;
    var out := new char[|text|](i requires 0 <= i < |text| => text[i]);
    ghost var total := Blanked(word, None, text, 0);
    var index, blockDepth := 0, 0;
    Begin(word, text, total, out[..]);
    while index < |text|
      invariant index <= |text| == out.Length
      invariant Progress(word, text, total, out[..], index, blockDepth)
    {
      var token := ScanToken(word, text, index, blockDepth);
      Advance(word, text, total, out[..], index, blockDepth, token);
      if token.blank {
        EraseRange(out, index, index + token.length);
      }
      index := index + token.length;
      blockDepth := token.depth;
    }
    result := out[..];
    assert result[..|text|] + [] == result;
  }

  lemma Begin(word: char -> bool, text: string, total: string, out: string)
    requires out == text && total == Blanked(word, None, text, 0)
    ensures Progress(word, text, total, out, 0, 0)
  {
    assert text[0..] == text && out[..0] == [] && [] + total == total;
  }

  // ----- offsets and newlines -------------------------------------------------

  predicate IsGap(c: char) { c == ' ' || c == '\n' }

  /** One blanked character: the original, or a space where no newline was. */
  predicate Faithful(was: char, now: char) {
    now == was || (now == ' ' && was != '\n')
  }

  /** Offsets and newlines are kept; every character is the original or a space. */
  lemma {:induction false} OffsetsAreKept(word: char -> bool, previous: Option<char>, s: string, depth: nat, k: nat)
    requires k < |s|
    ensures Faithful(s[k], Blanked(word, previous, s, depth)[k])
    ensures Blanked(word, previous, s, depth)[k] == '\n' <==> s[k] == '\n'
    decreases |s|
  {
    var t := Next(word, previous, s, depth);
    if k >= t.length {
      OffsetsAreKept(word, Some(s[t.length - 1]), s[t.length..], t.depth, k - t.length);
    }
  }

  /** `line_at`. */
  function LineAt(text: string, offset: nat): nat
    requires offset <= |text|
  {
    if offset == 0 then 1 else LineAt(text, offset - 1) + (if text[offset - 1] == '\n' then 1 else 0)
  }

  /** The line of an offset is one more than the number of newlines before it. */
  lemma {:induction false} LineAtCounts(text: string, offset: nat)
    requires offset <= |text|
    ensures LineAt(text, offset) == 1 + multiset(text[..offset])['\n']
  {
    if offset > 0 {
      LineAtCounts(text, offset - 1);
      assert text[..offset] == text[..offset - 1] + [text[offset - 1]];
    }
  }

  /** Line numbers computed from the original are those of the blanked text. */
  lemma {:induction false} LinesAgree(word: char -> bool, text: string, offset: nat)
    requires offset <= |text|
    ensures LineAt(Blanked(word, None, text, 0), offset) == LineAt(text, offset)
  {
    if offset > 0 {
      LinesAgree(word, text, offset - 1);
      OffsetsAreKept(word, None, text, 0, offset - 1);
    }
  }

  // ----- what survives --------------------------------------------------------

  /** The scan at depth 0 keeps the first character of `s`. */
  predicate Keeps(word: char -> bool, previous: Option<char>, s: string) {
    s != [] && !Next(word, previous, s, 0).blank
  }

  /** The output, character by character: the first token, then the rest. */
  lemma BlankedIndex(word: char -> bool, previous: Option<char>, s: string, depth: nat, t: Token, k: nat)
    requires k < |s| && t == Next(word, previous, s, depth)
    ensures Blanked(word, previous, s, depth)[k] ==
            if k < t.length then (if t.blank && s[k] != '\n' then ' ' else s[k])
            else Blanked(word, Some(s[t.length - 1]), s[t.length..], t.depth)[k - t.length]
  {
  }

  lemma KeptToken(word: char -> bool, previous: Option<char>, s: string, depth: nat)
    requires s != [] && !Next(word, previous, s, depth).blank
    ensures depth == 0 && Next(word, previous, s, depth).length == 1
  {
  }

  /** A visible character of the output was code: the scan stood on it and kept it. */
  lemma {:induction false} VisibleIsKept(word: char -> bool, previous: Option<char>, s: string, depth: nat, k: nat)
    requires k < |s| && !IsGap(Blanked(word, previous, s, depth)[k])
    ensures Blanked(word, previous, s, depth)[k] == s[k]
    ensures Keeps(word, if k == 0 then previous else Some(s[k - 1]), s[k..])
    decreases |s|
  {
    hide Next, Blanked;
    var t := Next(word, previous, s, depth);
    BlankedIndex(word, previous, s, depth, t, k);
    if k < t.length {
      KeptToken(word, previous, s, depth);
      assert s[0..] == s;
    } else {
      var rest := s[t.length..];
      VisibleIsKept(word, Some(s[t.length - 1]), rest, t.depth, k - t.length);
      assert rest[k - t.length..] == s[k..];
    }
  }

  /** What the scan keeps is no quote and opens no comment or character literal. */
  lemma KeptIsCode(word: char -> bool, previous: Option<char>, s: string)
    requires Keeps(word, previous, s)
    ensures s[0] != '"' && !Starts(s, '/', '/') && !Starts(s, '/', '*') && CharLength(s) == 0
  {
  }

  /** No double quote survives. */
  lemma NoQuoteSurvives(word: char -> bool, text: string, k: nat)
    requires k < |text|
    ensures Blanked(word, None, text, 0)[k] != '"'
  {
    if !IsGap(Blanked(word, None, text, 0)[k]) {
      VisibleIsKept(word, None, text, 0, k);
      KeptIsCode(word, if k == 0 then None else Some(text[k - 1]), text[k..]);
    }
  }

  /** A character blanked at the start of a scan outside comments has a gap after it. */
  lemma FirstErased(word: char -> bool, previous: Option<char>, s: string)
    requires |s| > 1 && Blanked(word, previous, s, 0)[0] != s[0]
    ensures IsGap(Blanked(word, previous, s, 0)[1])
  {
    var t := Next(word, previous, s, 0);
    assert t.blank;
    assert t.length > 1;
  }

  /** No blanked character stands alone between two visible ones. */
  lemma {:induction false} NoLoneErasure(word: char -> bool, previous: Option<char>, s: string, depth: nat, k: nat)
    requires 0 < k < |s| - 1 && Blanked(word, previous, s, depth)[k] != s[k]
    ensures IsGap(Blanked(word, previous, s, depth)[k - 1]) || IsGap(Blanked(word, previous, s, depth)[k + 1])
    decreases |s|
  {
    var t := Next(word, previous, s, depth);
    var n, rest := t.length, s[t.length..];
    if k > n {
      NoLoneErasure(word, Some(s[n - 1]), rest, t.depth, k - n);
    } else if k == n {
      if t.depth == 0 {
        FirstErased(word, Some(s[n - 1]), rest);
      } else {
        assert t.blank;
      }
    }
  }

  // ----- blanking twice -------------------------------------------------------

  /** The text and its blanked form, seen from offset `k`. */
  lemma ShapesFrom(word: char -> bool, text: string, k: nat)
    requires k < |text|
    ensures var out := Blanked(word, None, text, 0);
            !IsGap(out[k]) ==>
              && out[k] == text[k] && out[k] != '"'
              && !Starts(text[k..], '/', '/') && !Starts(text[k..], '/', '*') && CharLength(text[k..]) == 0
  {
    if !IsGap(Blanked(word, None, text, 0)[k]) {
      VisibleIsKept(word, None, text, 0, k);
      KeptIsCode(word, if k == 0 then None else Some(text[k - 1]), text[k..]);
    }
  }

  /** A character of the output between two visible neighbours is the original. */
  lemma BetweenVisible(word: char -> bool, text: string, k: nat)
    requires 0 < k < |text| - 1
    ensures var out := Blanked(word, None, text, 0);
            !IsGap(out[k - 1]) && !IsGap(out[k + 1]) ==> out[k] == text[k]
  {
    if Blanked(word, None, text, 0)[k] != text[k] {
      NoLoneErasure(word, None, text, 0, k);
    }
  }

  /** What the output must look like for no literal to be left in it. */
  ghost predicate Survivors(text: string, out: string) {
    && |out| == |text|
    && (forall j :: 0 <= j < |out| && !IsGap(out[j]) ==> out[j] == text[j] && CharLength(text[j..]) == 0)
    && (forall j, k :: 0 < j < |out| - 1 && k == j + 1 && !IsGap(out[j - 1]) && !IsGap(out[k]) ==> out[j] == text[j])
  }

  lemma OutputSurvives(word: char -> bool, text: string)
    ensures Survivors(text, Blanked(word, None, text, 0))
  {
    var out := Blanked(word, None, text, 0);
    forall j | 0 <= j < |out| && !IsGap(out[j])
      ensures out[j] == text[j] && CharLength(text[j..]) == 0
    {
      ShapesFrom(word, text, j);
    }
    forall j, k | 0 < j < |out| - 1 && k == j + 1 && !IsGap(out[j - 1]) && !IsGap(out[k])
      ensures out[j] == text[j]
    {
      BetweenVisible(word, text, j);
    }
  }

  /** In a literal all but the character before the closing quote is visible by shape. */
  lemma LiteralShape(s: string)
    requires CharLength(s) > 0
    ensures forall j :: 0 <= j < CharLength(s) && j != CharLength(s) - 2 ==> !IsGap(s[j])
  {
  }

  /** No character literal is left at any offset of the output. */
  lemma NoLiteralLeft(text: string, out: string, k: nat)
    requires Survivors(text, out) && k < |out|
    ensures CharLength(out[k..]) == 0
  {
    var s, t := out[k..], text[k..];
    var n := CharLength(s);
    if n > 0 {
      LiteralShape(s);
      forall j | 0 <= j < n
        ensures s[j] == t[j]
      {
        assert s[j] == out[k + j] && t[j] == text[k + j];
        if j == n - 2 {
          assert s[j - 1] == out[k + j - 1] && s[j + 1] == out[k + j + 1];
        }
      }
      SameLiteral(s, t);
      assert s[0] == out[k];
    }
  }

  lemma SameLiteral(s: string, t: string)
    requires |s| == |t| && CharLength(s) > 0
    requires forall j :: 0 <= j < CharLength(s) ==> s[j] == t[j]
    ensures CharLength(t) == CharLength(s)
  {
  }

  lemma OpeningEndsInQuote(s: string)
    ensures RawOpening(s) > 0 ==> s[RawOpening(s) - 1] == '"'
  {
  }

  lemma NoRawLeft(word: char -> bool, text: string, k: nat)
    requires k < |text|
    ensures RawOpening(Blanked(word, None, text, 0)[k..]) == 0
  {
    var s := Blanked(word, None, text, 0)[k..];
    OpeningEndsInQuote(s);
    var n := RawOpening(s);
    if n > 0 {
      NoQuoteSurvives(word, text, k + n - 1);
    }
  }

  lemma NoCommentLeft(word: char -> bool, text: string, k: nat)
    requires k < |text|
    ensures var s := Blanked(word, None, text, 0)[k..];
            s[0] != '"' && !Starts(s, '/', '/') && !Starts(s, '/', '*')
  {
    NoQuoteSurvives(word, text, k);
    ShapesFrom(word, text, k);
    if k + 1 < |text| {
      ShapesFrom(word, text, k + 1);
    }
  }

  lemma KeepFrom(word: char -> bool, previous: Option<char>, s: string)
    requires s != [] && RawOpening(s) == 0 && CharLength(s) == 0
    requires s[0] != '"' && !Starts(s, '/', '/') && !Starts(s, '/', '*')
    ensures Next(word, previous, s, 0) == Token(1, false, 0)
  {
  }

  /** A scan of the output keeps every character. */
  lemma OutputIsKept(word: char -> bool, previous: Option<char>, text: string, k: nat)
    requires k < |text|
    ensures Next(word, previous, Blanked(word, None, text, 0)[k..], 0) == Token(1, false, 0)
  {
    OutputSurvives(word, text);
    NoLiteralLeft(text, Blanked(word, None, text, 0), k);
    NoRawLeft(word, text, k);
    NoCommentLeft(word, text, k);
    KeepFrom(word, previous, Blanked(word, None, text, 0)[k..]);
  }

  /** Blanking twice is blanking once. */
  lemma BlankingTwice(word: char -> bool, text: string)
    ensures Blanked(word, None, Blanked(word, None, text, 0), 0) == Blanked(word, None, text, 0)
  {
    var out := Blanked(word, None, text, 0);
    forall previous: Option<char>, k | 0 <= k < |out|
      ensures Next(word, previous, out[k..], 0) == Token(1, false, 0)
    {
      OutputIsKept(word, previous, text, k);
    }
    RescanKeeps(word, None, out, 0);
    assert out[0..] == out;
  }

  lemma {:induction false} RescanKeeps(word: char -> bool, previous: Option<char>, out: string, k: nat)
    requires k <= |out|
    requires forall p: Option<char>, j :: 0 <= j < |out| ==> Next(word, p, out[j..], 0) == Token(1, false, 0)
    ensures Blanked(word, previous, out[k..], 0) == out[k..]
    decreases |out| - k
  {
    if k < |out| {
      var s := out[k..];
      RescanKeeps(word, Some(s[0]), out, k + 1);
      assert s[1..] == out[k + 1..] && s == s[..1] + s[1..];
    }
  }
}

// ci/platform_boundary_research.py: the delimiter that closes a construct in blanked text.
module Delimiters {

  /** Openings less closings. */
  function Depth(s: string, left: char, right: char): int {
    if s == [] then 0
    else
      var c := s[|s| - 1];
      Depth(s[..|s| - 1], left, right) + (if c == left then 1 else if c == right then -1 else 0)
  }

  /** A closing delimiter at `k` balances everything from `opening` on. */
  predicate Closes(text: string, opening: nat, left: char, right: char, k: int) {
    opening <= k < |text| && text[k] == right && text[k] != left && Depth(text[opening..k + 1], left, right) == 0
  }

  ghost predicate NoneBefore(text: string, opening: nat, left: char, right: char, index: int) {
    forall k :: opening <= k < index ==> !Closes(text, opening, left, right, k)
  }

  lemma DepthStep(text: string, opening: nat, index: nat, left: char, right: char)
    requires opening <= index < |text|
    ensures Depth(text[opening..index + 1], left, right) == Depth(text[opening..index], left, right)
              + (if text[index] == left then 1 else if text[index] == right then -1 else 0)
  {
    var s := text[opening..index + 1];
    assert s[..|s| - 1] == text[opening..index];
  }

  /** `matching_delimiter`: the first closing delimiter, or the last offset of the text if there is none. */
  method MatchingDelimiter(text: string, opening: nat, left: char, right: char) returns (r: int)
    ensures Closes(text, opening, left, right, r) || r == |text| - 1
    ensures NoneBefore(text, opening, left, right, r)
  {
    var depth := 0;
    var index := opening;
    assert opening <= |text| ==> text[opening..opening] == [];
    while index < |text|
      invariant opening <= index && (index <= |text| || index == opening)
      invariant index <= |text| ==> depth == Depth(text[opening..index], left, right)
      invariant NoneBefore(text, opening, left, right, index)
    {
      DepthStep(text, opening, index, left, right);
      if text[index] == left {
        depth := depth + 1;
      } else if text[index] == right {
        depth := depth - 1;
        if depth == 0 {
          return index;
        }
      }
      index := index + 1;
    }
    return |text| - 1;
  }

  /** Nested text: characters that are no delimiters, and groups between delimiters. */
  datatype Item = Plain(c: char) | Group(items: seq<Item>)

  function PrintItem(x: Item, left: char, right: char): string {
    match x
    case Plain(c) => [c]
    case Group(items) => [left] + Print(items, left, right) + [right]
  }

  function Print(items: seq<Item>, left: char, right: char): string {
    if items == [] then [] else PrintItem(items[0], left, right) + Print(items[1..], left, right)
  }

  predicate WellFormedItem(x: Item, left: char, right: char) {
    match x
    case Plain(c) => c != left && c != right
    case Group(items) => WellFormed(items, left, right)
  }

  predicate WellFormed(items: seq<Item>, left: char, right: char) {
    items != [] ==> WellFormedItem(items[0], left, right) && WellFormed(items[1..], left, right)
  }

  lemma {:induction false} DepthAppend(a: string, b: string, left: char, right: char)
    ensures Depth(a + b, left, right) == Depth(a, left, right) + Depth(b, left, right)
  {
    if b == [] {
      assert a + b == a;
    } else {
      var n := |b| - 1;
      assert (a + b)[..|a| + n] == a + b[..n];
      DepthAppend(a, b[..n], left, right);
    }
  }

  lemma DepthOfOne(c: char, left: char, right: char)
    ensures Depth([c], left, right) == if c == left then 1 else if c == right then -1 else 0
  {
    assert [c][..0] == [];
    assert Depth([], left, right) == 0;
  }

  /** Nested text is balanced and no prefix of it closes more than it opens. */
  lemma {:induction false} ItemsBalance(items: seq<Item>, left: char, right: char, k: nat)
    requires left != right && WellFormed(items, left, right) && k <= |Print(items, left, right)|
    ensures Depth(Print(items, left, right), left, right) == 0
    ensures Depth(Print(items, left, right)[..k], left, right) >= 0
    decreases items, 1
  {
    if items != [] {
      var head, tail := PrintItem(items[0], left, right), Print(items[1..], left, right);
      DepthAppend(head, tail, left, right);
      if k <= |head| {
        assert (head + tail)[..k] == head[..k];
        ItemBalances(items[0], left, right, k);
        ItemsBalance(items[1..], left, right, 0);
      } else {
        assert (head + tail)[..k] == head + tail[..k - |head|];
        DepthAppend(head, tail[..k - |head|], left, right);
        ItemBalances(items[0], left, right, 0);
        ItemsBalance(items[1..], left, right, k - |head|);
      }
    }
  }

  lemma {:induction false} ItemBalances(x: Item, left: char, right: char, k: nat)
    requires left != right && WellFormedItem(x, left, right) && k <= |PrintItem(x, left, right)|
    ensures Depth(PrintItem(x, left, right), left, right) == 0
    ensures Depth(PrintItem(x, left, right)[..k], left, right) >= 0
    decreases x, 0
  {
    var s := PrintItem(x, left, right);
    assert s[..|s|] == s && s[..0] == [];
    match x
    case Plain(c) =>
      DepthOfOne(c, left, right);
    case Group(items) =>
      var inner := Print(items, left, right);
      ItemsBalance(items, left, right, if 1 <= k <= |inner| + 1 then k - 1 else 0);
      Enclosed(inner, left, right, k);
  }

  lemma Enclosed(inner: string, left: char, right: char, k: nat)
    requires left != right && k <= |inner| + 2
    ensures var s := [left] + inner + [right];
            && Depth(s, left, right) == Depth(inner, left, right)
            && Depth(s[..k], left, right) ==
               (if k == 0 then 0
                else if k <= |inner| + 1 then 1 + Depth(inner[..k - 1], left, right)
                else Depth(inner, left, right))
  {
    NothingOpen(left, right);
    hide *;
    var s := [left] + inner + [right];
    DepthOfOne(right, left, right);
    OpenedPrefix(inner, left, right, |inner|);
    assert inner[..|inner|] == inner;
    DepthAppend([left] + inner, [right], left, right);
    if k == 0 {
      assert s[..0] == [];
    } else if k <= |inner| + 1 {
      assert s[..k] == [left] + inner[..k - 1];
      OpenedPrefix(inner, left, right, k - 1);
    } else {
      assert s[..k] == s;
    }
  }

  lemma NothingOpen(left: char, right: char)
    ensures Depth([], left, right) == 0
  {
  }

  lemma OpenedPrefix(inner: string, left: char, right: char, k: nat)
    requires k <= |inner|
    ensures Depth([left] + inner[..k], left, right) == 1 + Depth(inner[..k], left, right)
  {
    DepthOfOne(left, left, right);
    DepthAppend([left], inner[..k], left, right);
  }

  /** The delimiter found is the one that encloses the nested text after the opening. */
  lemma EnclosingIsFound(front: string, items: seq<Item>, rest: string, left: char, right: char, r: int)
    requires left != right && WellFormed(items, left, right)
    requires var text := front + PrintItem(Group(items), left, right) + rest;
             (Closes(text, |front|, left, right, r) || r == |text| - 1) && NoneBefore(text, |front|, left, right, r)
    ensures r == |front| + 1 + |Print(items, left, right)|
  {
    var inner := Print(items, left, right);
    var s := [left] + inner + [right];
    var text, last := front + s + rest, |front| + 1 + |inner|;
    ItemsBalance(items, left, right, 0);
    Enclosed(inner, left, right, |s|);
    assert text[|front|..last + 1] == s;
    assert Closes(text, |front|, left, right, last);
    forall k | |front| <= k < last ensures !Closes(text, |front|, left, right, k) {
      var n := k + 1 - |front|;
      assert text[|front|..k + 1] == s[..n];
      ItemsBalance(items, left, right, n - 1);
      Enclosed(inner, left, right, n);
    }
  }
}

// pipeline/build_unflags.rs: removing flags by token or by option and value, and when doing
// it twice is doing it once.
module Unflags {

  predicate TakesValue(flag: string) {
    flag in {"-include", "-imacros", "-isystem", "-iquote", "-iprefix", "-iwithprefix",
             "-iwithprefixbefore", "-Xlinker", "-Wa", "-Wl", "-Wp", "-L", "-T"}
  }

  function RemoveToken(flags: seq<string>, token: string): seq<string> {
    if flags == [] then []
    else if flags[0] == token then RemoveToken(flags[1..], token)
    else [flags[0]] + RemoveToken(flags[1..], token)
  }

  function RemovePair(flags: seq<string>, option: string, value: string): seq<string> {
    if flags == [] then []
    else if flags[0] == option && |flags| > 1 && flags[1] == value then RemovePair(flags[2..], option, value)
    else [flags[0]] + RemovePair(flags[1..], option, value)
  }

  function RemoveUnflagged(flags: seq<string>, unflags: seq<string>): seq<string>
    decreases |unflags|
  {
    if unflags == [] then flags
    else if TakesValue(unflags[0]) && |unflags| > 1 then
      RemoveUnflagged(RemovePair(flags, unflags[0], unflags[1]), unflags[2..])
    else RemoveUnflagged(RemoveToken(flags, unflags[0]), unflags[1..])
  }

  /** The loop of `remove_flag_value_pair`. */
  method RemoveFlagValuePair(flags: seq<string>, option: string, value: string) returns (filtered: seq<string>)
    ensures filtered == RemovePair(flags, option, value)
  {
    filtered := [];
    var i := 0;
    while i < |flags|
      invariant 0 <= i <= |flags|
      invariant filtered + RemovePair(flags[i..], option, value) == RemovePair(flags, option, value)
    {
      var current := flags[i];
      assert flags[i..][1..] == flags[i + 1..];
      if current == option && i + 1 < |flags| && flags[i + 1] == value {
        assert flags[i..][2..] == flags[i + 2..];
        i := i + 2;
        continue;
      }
      assert filtered + ([current] + RemovePair(flags[i + 1..], option, value))
          == filtered + [current] + RemovePair(flags[i + 1..], option, value);
      filtered := filtered + [current];
      i := i + 1;
    }
    assert filtered + [] == filtered;
  }

  /** The loop of `remove_unflagged_tokens`. */
  method RemoveUnflaggedTokens(flags: seq<string>, unflags: seq<string>) returns (result: seq<string>)
    ensures result == RemoveUnflagged(flags, unflags)
  {
    result := flags;
    var i := 0;
    while i < |unflags|
      invariant 0 <= i <= |unflags|
      invariant RemoveUnflagged(result, unflags[i..]) == RemoveUnflagged(flags, unflags)
    {
      var token := unflags[i];
      assert unflags[i..][1..] == unflags[i + 1..];
      if TakesValue(token) && i + 1 < |unflags| {
        assert unflags[i..][2..] == unflags[i + 2..];
        result := RemoveFlagValuePair(result, token, unflags[i + 1]);
        i := i + 2;
      } else {
        result := RemoveToken(result, token);
        i := i + 1;
      }
    }
  }

  /** The options that take a value go with it, as a pair, and each alone stays; any other two
      unflags go word by word. */
  lemma OptionGoesAsPair(option: string, value: string, other: string)
    requires option != value && other != value && other != option
    ensures (option == "-include" || option == "-imacros" || option == "-isystem" || option == "-iquote"
             || option == "-iprefix" || option == "-iwithprefix" || option == "-iwithprefixbefore"
             || option == "-Xlinker" || option == "-Wa" || option == "-Wl" || option == "-Wp" || option == "-L"
             || option == "-T")
            <==> RemoveUnflagged([option, other, option, value], [option, value]) == [option, other]
  {
    var pair := [option, value];
    assert pair[2..] == [] && pair[1..] == [value] && [value][1..] == [];
    PairAmong(option, value, other);
    TokensAmong(option, value, other);
    var flags := [option, other, option, value];
    var none: seq<string> := [];
    hide RemoveToken, RemovePair;
    OneToken(RemoveToken(flags, option), value);
    assert RemoveUnflagged(RemovePair(flags, option, value), none) == RemovePair(flags, option, value);
    assert [other] != [option, other];
  }

  lemma OneToken(flags: seq<string>, token: string)
    ensures RemoveUnflagged(flags, [token]) == RemoveToken(flags, token)
  {
    hide TakesValue;
    var none: seq<string> := [];
    assert [token][1..] == none && RemoveUnflagged(RemoveToken(flags, token), none) == RemoveToken(flags, token);
  }

  lemma PairAmong(option: string, value: string, other: string)
    requires option != value && other != value && other != option
    ensures RemovePair([option, other, option, value], option, value) == [option, other]
  {
    var flags := [option, other, option, value];
    assert flags[1..] == [other, option, value] && flags[1..][1..] == [option, value] && [option, value][2..] == [];
    assert RemovePair([option, value], option, value) == [];
    assert RemovePair(flags[1..], option, value) == [other];
  }

  lemma TokensAmong(option: string, value: string, other: string)
    requires option != value && other != value && other != option
    ensures RemoveToken(RemoveToken([option, other, option, value], option), value) == [other]
  {
    var flags := [option, other, option, value];
    assert flags[1..] == [other, option, value] && flags[1..][1..] == [option, value];
    assert [option, value][1..] == [value];
    assert [value][1..] == [] && RemoveToken([value], option) == [value];
    assert RemoveToken([option, value], option) == [value];
    assert RemoveToken(flags[1..], option) == [other, value];
    assert [other, value][1..] == [value] && RemoveToken([value], value) == [];
  }

  /** Stripping twice can strip more than stripping once: the two halves of an outer pair
      meet when an inner pair goes. */
  lemma RestrippingCanStripMore()
    ensures var flags := ["-L", "-L", "d", "d"];
            var once := RemoveUnflagged(flags, ["-L", "d"]);
            once == ["-L", "d"] && RemoveUnflagged(once, ["-L", "d"]) == []
  {
    var u := ["-L", "d"];
    assert u[2..] == [] && TakesValue("-L");
    var flags := ["-L", "-L", "d", "d"];
    assert flags[1..] == ["-L", "d", "d"] && flags[1..][2..] == ["d"];
    assert ["d"][1..] == [] && ["-L", "d"][2..] == [];
    assert RemovePair(["d"], "-L", "d") == ["d"];
    assert RemovePair(flags[1..], "-L", "d") == ["d"];
  }

  // ----- one pair -------------------------------------------------------------

  /** Some number of `option value` and then a `value`. */
  predicate ThenValue(flags: seq<string>, option: string, value: string) {
    flags != [] &&
    (flags[0] == value
     || (flags[0] == option && |flags| > 1 && flags[1] == value && ThenValue(flags[2..], option, value)))
  }

  /** Somewhere an `option`, at least one `option value`, and then a `value`: when the inner
      pairs go, the outer two meet. */
  predicate Wrapped(flags: seq<string>, option: string, value: string) {
    flags != [] &&
    (|| (|flags| > 2 && flags[0] == option && flags[1] == option && flags[2] == value
         && ThenValue(flags[3..], option, value))
     || Wrapped(flags[1..], option, value))
  }

  predicate HasPair(flags: seq<string>, option: string, value: string) {
    |flags| > 1 && ((flags[0] == option && flags[1] == value) || HasPair(flags[1..], option, value))
  }

  lemma {:induction false} NothingToRemove(flags: seq<string>, option: string, value: string)
    ensures RemovePair(flags, option, value) == flags <==> !HasPair(flags, option, value)
    ensures |RemovePair(flags, option, value)| <= |flags|
    ensures HasPair(flags, option, value) ==> |RemovePair(flags, option, value)| < |flags|
  {
    if flags == [] {
    } else if flags[0] == option && |flags| > 1 && flags[1] == value {
      NothingToRemove(flags[2..], option, value);
    } else {
      NothingToRemove(flags[1..], option, value);
      assert flags == [flags[0]] + flags[1..];
    }
  }

  lemma {:induction false} HeadAfter(flags: seq<string>, option: string, value: string)
    requires option != value
    ensures var r := RemovePair(flags, option, value);
            r != [] && r[0] == value <==> ThenValue(flags, option, value)
  {
    if flags == [] {
    } else if flags[0] == option && |flags| > 1 && flags[1] == value {
      HeadAfter(flags[2..], option, value);
    }
  }

  lemma {:induction false} PairLeft(flags: seq<string>, option: string, value: string)
    requires option != value
    ensures HasPair(RemovePair(flags, option, value), option, value) <==> Wrapped(flags, option, value)
  {
    if flags == [] {
    } else if flags[0] == option && |flags| > 1 && flags[1] == value {
      PairLeft(flags[2..], option, value);
      assert flags[1..][1..] == flags[2..];
    } else {
      var rest := flags[1..];
      var r := [flags[0]] + RemovePair(rest, option, value);
      assert r[1..] == RemovePair(rest, option, value);
      PairLeft(rest, option, value);
      HeadAfter(rest, option, value);
      assert |flags| > 2 ==> rest[1] == flags[2] && rest[2..] == flags[3..];
    }
  }

  lemma {:induction false} NoTwinLeft(flags: seq<string>, option: string)
    ensures !HasPair(RemovePair(flags, option, option), option, option)
    ensures flags != [] && flags[0] != option ==>
              RemovePair(flags, option, option) != [] && RemovePair(flags, option, option)[0] == flags[0]
  {
    if flags == [] {
    } else if flags[0] == option && |flags| > 1 && flags[1] == option {
      NoTwinLeft(flags[2..], option);
    } else {
      var r := [flags[0]] + RemovePair(flags[1..], option, option);
      assert r[1..] == RemovePair(flags[1..], option, option);
      NoTwinLeft(flags[1..], option);
    }
  }

  /** Stripping one pair a second time is a no-op exactly when the flags hold no wrapped pair;
      when option and value are the same word it always is. */
  lemma PairRestripsExactly(flags: seq<string>, option: string, value: string)
    ensures var once := RemovePair(flags, option, value);
            RemovePair(once, option, value) == once <==> option == value || !Wrapped(flags, option, value)
  {
    NothingToRemove(RemovePair(flags, option, value), option, value);
    if option == value {
      NoTwinLeft(flags, option);
    } else {
      PairLeft(flags, option, value);
    }
  }

  // ----- a list of unflags ----------------------------------------------------

  /** Only the last may be an option that takes a value: with nothing after it, it is a token. */
  predicate AllTokens(unflags: seq<string>) {
    forall i :: 0 <= i < |unflags| - 1 ==> !TakesValue(unflags[i])
  }

  /** The flags that are none of the words. */
  function Kept(flags: seq<string>, words: seq<string>): seq<string> {
    if flags == [] then []
    else if flags[0] in words then Kept(flags[1..], words)
    else [flags[0]] + Kept(flags[1..], words)
  }

  lemma {:induction false} KeptAfterToken(flags: seq<string>, token: string, words: seq<string>)
    ensures Kept(RemoveToken(flags, token), words) == Kept(flags, [token] + words)
  {
    if flags != [] {
      KeptAfterToken(flags[1..], token, words);
      if flags[0] != token {
        var r := RemoveToken(flags[1..], token);
        assert ([flags[0]] + r)[1..] == r;
      }
    }
  }

  lemma {:induction false} NothingTaken(flags: seq<string>, words: seq<string>)
    ensures Kept(flags, words) == flags <==> forall f :: f in flags ==> f !in words
    ensures forall f :: f in Kept(flags, words) <==> f in flags && f !in words
    ensures |Kept(flags, words)| <= |flags|
  {
    if flags != [] {
      NothingTaken(flags[1..], words);
      assert flags == [flags[0]] + flags[1..];
    }
  }

  /** Unflags that are tokens take exactly those words. */
  lemma {:induction false} TokensTake(flags: seq<string>, unflags: seq<string>)
    requires AllTokens(unflags)
    ensures RemoveUnflagged(flags, unflags) == Kept(flags, unflags)
    decreases |unflags|
  {
    if unflags == [] {
      NothingTaken(flags, []);
    } else {
      assert |unflags| > 1 ==> !TakesValue(unflags[0]);
      TokensTake(RemoveToken(flags, unflags[0]), unflags[1..]);
      KeptAfterToken(flags, unflags[0], unflags[1..]);
      assert unflags == [unflags[0]] + unflags[1..];
    }
  }

  /** Re-stripping is a no-op for every list of flags when no unflag takes a value. */
  lemma TokensRestrip(flags: seq<string>, unflags: seq<string>)
    requires AllTokens(unflags)
    ensures RemoveUnflagged(RemoveUnflagged(flags, unflags), unflags) == RemoveUnflagged(flags, unflags)
  {
    TokensTake(flags, unflags);
    TokensTake(Kept(flags, unflags), unflags);
    NothingTaken(flags, unflags);
    NothingTaken(Kept(flags, unflags), unflags);
  }

  /** Tokens, one pair, tokens. */
  predicate OnePair(before: seq<string>, option: string, value: string, after: seq<string>) {
    (forall u :: u in before ==> !TakesValue(u)) && TakesValue(option) && AllTokens(after)
  }

  function Listed(before: seq<string>, option: string, value: string, after: seq<string>): seq<string> {
    before + [option, value] + after
  }

  lemma {:induction false} ListedStrips(flags: seq<string>, before: seq<string>, option: string, value: string,
                                        after: seq<string>)
    requires OnePair(before, option, value, after)
    ensures RemoveUnflagged(flags, Listed(before, option, value, after))
         == RemoveUnflagged(RemovePair(RemoveUnflagged(flags, before), option, value), after)
    decreases |before|
  {
    var u := Listed(before, option, value, after);
    if before == [] {
      assert u[0] == option && u[1] == value && u[2..] == after;
    } else {
      assert u[0] == before[0] && u[1..] == Listed(before[1..], option, value, after);
      assert before[0] in before;
      ListedStrips(RemoveToken(flags, before[0]), before[1..], option, value, after);
    }
  }

  /** Re-stripping by tokens and one pair can undo more than the first time only if neither
      word of the pair is itself an unflag, and then either the two differ or some token is
      taken after the pair that was not taken before it. */
  predicate CanUndoMore(before: seq<string>, option: string, value: string, after: seq<string>) {
    && option !in before + after && value !in before + after
    && (option != value || exists t :: t in after && t !in before)
  }

  ghost predicate AlwaysRestrips(unflags: seq<string>) {
    forall flags :: RemoveUnflagged(RemoveUnflagged(flags, unflags), unflags) == RemoveUnflagged(flags, unflags)
  }

  function StripOnce(flags: seq<string>, before: seq<string>, option: string, value: string,
                     after: seq<string>): seq<string>
  {
    Kept(RemovePair(Kept(flags, before), option, value), after)
  }

  lemma StripIs(flags: seq<string>, before: seq<string>, option: string, value: string, after: seq<string>)
    requires OnePair(before, option, value, after)
    ensures RemoveUnflagged(flags, Listed(before, option, value, after))
         == StripOnce(flags, before, option, value, after)
  {
    ListedStrips(flags, before, option, value, after);
    assert forall i :: 0 <= i < |before| ==> before[i] in before;
    TokensTake(flags, before);
    TokensTake(RemovePair(Kept(flags, before), option, value), after);
  }

  lemma {:induction false} PairOnlyDrops(flags: seq<string>, option: string, value: string)
    ensures forall f :: f in RemovePair(flags, option, value) ==> f in flags
  {
    if flags == [] {
    } else if flags[0] == option && |flags| > 1 && flags[1] == value {
      PairOnlyDrops(flags[2..], option, value);
    } else {
      PairOnlyDrops(flags[1..], option, value);
    }
  }

  lemma {:induction false} PairNeedsBoth(flags: seq<string>, option: string, value: string)
    ensures HasPair(flags, option, value) ==> option in flags && value in flags
  {
    if |flags| > 1 && !(flags[0] == option && flags[1] == value) { PairNeedsBoth(flags[1..], option, value); }
  }

  /** What is left of a list without the words of `before` and `after`, and without the pair. */
  lemma StripFixes(r: seq<string>, before: seq<string>, option: string, value: string, after: seq<string>)
    requires forall f :: f in r ==> f !in before && f !in after
    requires !HasPair(r, option, value)
    ensures StripOnce(r, before, option, value, after) == r
  {
    NothingTaken(r, before);
    NothingTaken(r, after);
    NothingToRemove(r, option, value);
  }

  lemma SettledStrip(flags: seq<string>, before: seq<string>, option: string, value: string, after: seq<string>)
    requires !CanUndoMore(before, option, value, after)
    ensures var r := StripOnce(flags, before, option, value, after);
            StripOnce(r, before, option, value, after) == r
  {
    var a := Kept(flags, before);
    var p := RemovePair(a, option, value);
    var r := Kept(p, after);
    NothingTaken(flags, before);
    PairOnlyDrops(a, option, value);
    NothingTaken(p, after);
    PairNeedsBoth(r, option, value);
    if option !in before + after && value !in before + after {
      assert forall f :: f in p ==> f !in after;
      NoTwinLeft(a, option);
    }
    StripFixes(r, before, option, value, after);
  }

  lemma UndoesMore(before: seq<string>, option: string, value: string, after: seq<string>) returns (flags: seq<string>)
    requires CanUndoMore(before, option, value, after)
    ensures var r := StripOnce(flags, before, option, value, after);
            StripOnce(r, before, option, value, after) != r
  {
    var left := [option, value];
    if option != value {
      flags := [option, option, value, value];
      NestedPair(option, value);
    } else {
      var t :| t in after && t !in before;
      flags := [option, t, option];
      SplitPair(option, t);
      NothingTaken(flags, before);
      assert Kept(flags[1..][1..], after) == [option] && Kept(flags[1..], after) == [option];
    }
    NothingTaken(flags, before);
    NothingTaken(left, before);
    NothingTaken(left, after);
    assert StripOnce(flags, before, option, value, after) == left;
    assert left[2..] == [] && RemovePair(left, option, value) == [];
  }

  lemma NestedPair(option: string, value: string)
    requires option != value
    ensures RemovePair([option, option, value, value], option, value) == [option, value]
  {
    var flags := [option, option, value, value];
    assert flags[1..] == [option, value, value] && flags[1..][2..] == [value] && [value][1..] == [];
    assert RemovePair([value], option, value) == [value];
    assert RemovePair(flags[1..], option, value) == [value];
  }

  lemma SplitPair(option: string, t: string)
    requires t != option
    ensures RemovePair([option, t, option], option, option) == [option, t, option]
  {
    var flags := [option, t, option];
    assert flags[1..] == [t, option] && flags[1..][1..] == [option] && [option][1..] == [];
    assert RemovePair([option], option, option) == [option];
    assert RemovePair(flags[1..], option, option) == [t, option];
  }

  /** Tokens and one pair: re-stripping is a no-op for every list of flags exactly when the
      unflags cannot undo more. */
  lemma OnePairRestripsExactly(before: seq<string>, option: string, value: string, after: seq<string>)
    requires OnePair(before, option, value, after)
    ensures AlwaysRestrips(Listed(before, option, value, after)) <==> !CanUndoMore(before, option, value, after)
  {
    var u := Listed(before, option, value, after);
    if CanUndoMore(before, option, value, after) {
      var flags := UndoesMore(before, option, value, after);
      StripIs(flags, before, option, value, after);
      StripIs(StripOnce(flags, before, option, value, after), before, option, value, after);
      assert RemoveUnflagged(RemoveUnflagged(flags, u), u) != RemoveUnflagged(flags, u);
    } else {
      forall flags ensures RemoveUnflagged(RemoveUnflagged(flags, u), u) == RemoveUnflagged(flags, u) {
        StripIs(flags, before, option, value, after);
        StripIs(StripOnce(flags, before, option, value, after), before, option, value, after);
        SettledStrip(flags, before, option, value, after);
      }
    }
  }

  // ----- any number of pairs ----------------------------------------------------

  /** What one unflag, or an option and its value, takes. */
  datatype Strip = Token(word: string) | Pair(option: string, value: string)

  function Strips(unflags: seq<string>): seq<Strip>
    decreases |unflags|
  {
    if unflags == [] then []
    else if TakesValue(unflags[0]) && |unflags| > 1 then [Pair(unflags[0], unflags[1])] + Strips(unflags[2..])
    else [Token(unflags[0])] + Strips(unflags[1..])
  }

  function Take(flags: seq<string>, s: Strip): seq<string> {
    if s.Token? then RemoveToken(flags, s.word) else RemovePair(flags, s.option, s.value)
  }

  function TakeAll(flags: seq<string>, strips: seq<Strip>): seq<string>
    decreases |strips|
  {
    if strips == [] then flags else TakeAll(Take(flags, strips[0]), strips[1..])
  }

  lemma {:induction false} StripsTake(flags: seq<string>, unflags: seq<string>)
    ensures RemoveUnflagged(flags, unflags) == TakeAll(flags, Strips(unflags))
    decreases |unflags|
  {
    if unflags != [] {
      var s, rest := Strips(unflags)[0], Strips(unflags)[1..];
      if TakesValue(unflags[0]) && |unflags| > 1 {
        assert s == Pair(unflags[0], unflags[1]) && rest == Strips(unflags[2..]);
        StripsTake(Take(flags, s), unflags[2..]);
      } else {
        assert s == Token(unflags[0]) && rest == Strips(unflags[1..]);
        StripsTake(Take(flags, s), unflags[1..]);
      }
    }
  }

  /** What a strip leaves none of: the token, or the value. */
  function Last(s: Strip): string { if s.Token? then s.word else s.value }

  /** No option that takes a value is itself a token or the value of an option. */
  predicate Orderly(strips: seq<Strip>) {
    forall i, j :: 0 <= i < |strips| && 0 <= j < |strips| && strips[j].Pair? ==> Last(strips[i]) != strips[j].option
  }

  /** Every `value` comes right after an `option`; `led` says one is before the first flag. */
  predicate Led(flags: seq<string>, option: string, value: string, led: bool) {
    flags == [] || ((flags[0] == value ==> led) && Led(flags[1..], option, value, flags[0] == option))
  }

  predicate AllLed(flags: seq<string>, strips: seq<Strip>) {
    forall j :: 0 <= j < |strips| && strips[j].Pair? ==> Led(flags, strips[j].option, strips[j].value, false)
  }

  lemma LedMore(flags: seq<string>, option: string, value: string)
    requires Led(flags, option, value, false)
    ensures Led(flags, option, value, true)
  {
  }

  lemma {:induction false} LedAfterToken(flags: seq<string>, token: string, option: string, value: string, led: bool)
    requires Led(flags, option, value, led) && token != option
    ensures Led(RemoveToken(flags, token), option, value, led)
  {
    if flags != [] {
      LedAfterToken(flags[1..], token, option, value, flags[0] == option);
      if flags[0] == token {
        if led { LedMore(RemoveToken(flags[1..], token), option, value); }
      } else {
        var r := RemoveToken(flags[1..], token);
        assert ([flags[0]] + r)[1..] == r;
      }
    }
  }

  lemma {:induction false} LedAfterPair(flags: seq<string>, o: string, v: string, option: string, value: string,
                                        led: bool)
    requires Led(flags, option, value, led) && v != option
    ensures Led(RemovePair(flags, o, v), option, value, led)
  {
    if flags == [] {
    } else if flags[0] == o && |flags| > 1 && flags[1] == v {
      assert flags[1..][1..] == flags[2..];
      LedAfterPair(flags[2..], o, v, option, value, false);
      if led { LedMore(RemovePair(flags[2..], o, v), option, value); }
    } else {
      LedAfterPair(flags[1..], o, v, option, value, flags[0] == option);
      var r := RemovePair(flags[1..], o, v);
      assert ([flags[0]] + r)[1..] == r;
    }
  }

  /** A value that always follows its option goes with it. */
  lemma {:induction false} LedGoes(flags: seq<string>, option: string, value: string, led: bool)
    requires Led(flags, option, value, led) && option != value && (led ==> flags == [] || flags[0] != value)
    ensures value !in RemovePair(flags, option, value)
  {
    if flags == [] {
    } else if flags[0] == option && |flags| > 1 && flags[1] == value {
      assert flags[1..][1..] == flags[2..];
      LedGoes(flags[2..], option, value, false);
    } else {
      LedGoes(flags[1..], option, value, flags[0] == option);
    }
  }

  lemma TakeOne(flags: seq<string>, strips: seq<Strip>)
    requires strips != [] && Orderly(strips) && AllLed(flags, strips)
    ensures var rest := Take(flags, strips[0]);
            && Last(strips[0]) !in rest && AllLed(rest, strips[1..])
            && forall f :: f in rest ==> f in flags
  {
    var s := strips[0];
    var rest := Take(flags, s);
    if s.Token? {
      KeptAfterToken(flags, s.word, []);
      NothingTaken(rest, []);
      NothingTaken(flags, [s.word] + []);
    } else {
      assert Last(s) != s.option;
      LedGoes(flags, s.option, s.value, false);
      PairOnlyDrops(flags, s.option, s.value);
    }
    forall j | 0 <= j < |strips[1..]| && strips[1..][j].Pair?
      ensures Led(rest, strips[1..][j].option, strips[1..][j].value, false)
    {
      var p := strips[j + 1];
      assert Last(s) != p.option && Led(flags, p.option, p.value, false);
      if s.Token? {
        LedAfterToken(flags, s.word, p.option, p.value, false);
      } else {
        LedAfterPair(flags, s.option, s.value, p.option, p.value, false);
      }
    }
  }

  lemma {:induction false} AllGone(flags: seq<string>, strips: seq<Strip>)
    requires Orderly(strips) && AllLed(flags, strips)
    ensures forall f :: f in TakeAll(flags, strips) ==> f in flags
    ensures forall j :: 0 <= j < |strips| ==> Last(strips[j]) !in TakeAll(flags, strips)
    decreases |strips|
  {
    if strips != [] {
      TakeOne(flags, strips);
      hide AllLed, Take;
      AllGone(Take(flags, strips[0]), strips[1..]);
      assert forall j :: 1 <= j < |strips| ==> strips[j] == strips[1..][j - 1];
    }
  }

  lemma {:induction false} NothingToTake(flags: seq<string>, strips: seq<Strip>)
    requires forall j :: 0 <= j < |strips| ==> Last(strips[j]) !in flags
    ensures TakeAll(flags, strips) == flags
    decreases |strips|
  {
    if strips != [] {
      var s := strips[0];
      if s.Token? {
        KeptAfterToken(flags, s.word, []);
        NothingTaken(RemoveToken(flags, s.word), []);
        NothingTaken(flags, [s.word] + []);
      } else {
        PairNeedsBoth(flags, s.option, s.value);
        NothingToRemove(flags, s.option, s.value);
      }
      assert Take(flags, s) == flags;
      NothingToTake(flags, strips[1..]);
    }
  }

  /** Any number of pairs and tokens: re-stripping is a no-op when no option with a value is a
      token or a value among the unflags, and in the flags each value to be taken comes right
      after its option. */
  lemma PairsRestrip(flags: seq<string>, unflags: seq<string>)
    requires Orderly(Strips(unflags)) && AllLed(flags, Strips(unflags))
    ensures RemoveUnflagged(RemoveUnflagged(flags, unflags), unflags) == RemoveUnflagged(flags, unflags)
  {
    var strips := Strips(unflags);
    StripsTake(flags, unflags);
    AllGone(flags, strips);
    NothingToTake(TakeAll(flags, strips), strips);
    StripsTake(TakeAll(flags, strips), unflags);
  }

  // ----- words replaced ---------------------------------------------------------

  function Map(words: seq<string>, m: string -> string): (r: seq<string>)
    ensures |r| == |words|
  {
    if words == [] then [] else [m(words[0])] + Map(words[1..], m)
  }

  lemma {:induction false} MapMembers(words: seq<string>, m: string -> string)
    ensures forall w :: w in words ==> m(w) in Map(words, m)
  {
    if words != [] {
      MapMembers(words[1..], m);
      assert words == [words[0]] + words[1..];
    }
  }

  /** A replacement under which no flag comes to equal an unflag that it was not. */
  ghost predicate KeepsApart(flags: seq<string>, unflags: seq<string>, m: string -> string) {
    forall f, u :: f in flags && u in unflags && m(f) == m(u) ==> f == u
  }

  lemma {:induction false} MapToken(flags: seq<string>, token: string, m: string -> string)
    requires KeepsApart(flags, [token], m)
    ensures RemoveToken(Map(flags, m), m(token)) == Map(RemoveToken(flags, token), m)
  {
    if flags != [] {
      var f, rest := flags[0], flags[1..];
      assert f in flags && token in [token] && forall w :: w in rest ==> w in flags;
      MapToken(rest, token, m);
      assert Map(flags, m)[1..] == Map(rest, m);
      if f != token { assert ([f] + RemoveToken(rest, token))[1..] == RemoveToken(rest, token); }
    }
  }

  lemma {:induction false} MapPair(flags: seq<string>, o: string, v: string, m: string -> string)
    requires KeepsApart(flags, [o, v], m)
    ensures RemovePair(Map(flags, m), m(o), m(v)) == Map(RemovePair(flags, o, v), m)
  {
    if flags != [] {
      var f, rest := flags[0], flags[1..];
      assert f in flags && o in [o, v] && v in [o, v] && forall w :: w in rest ==> w in flags;
      assert Map(flags, m)[1..] == Map(rest, m);
      if |flags| > 1 {
        assert flags[1] in flags && Map(flags, m)[1] == m(flags[1]);
        assert Map(flags, m)[2..] == Map(rest, m)[1..] == Map(flags[2..], m) by { assert rest[1..] == flags[2..]; }
      }
      if f == o && |flags| > 1 && flags[1] == v {
        MapPair(flags[2..], o, v, m);
      } else {
        MapPair(rest, o, v, m);
        assert ([f] + RemovePair(rest, o, v))[1..] == RemovePair(rest, o, v);
      }
    }
  }

  /** Stripping commutes with replacing words in flags and unflags alike, as when a project
      moves, if no flag comes to equal an unflag and options that take values stay such. */
  lemma {:induction false} StrippingCommutes(flags: seq<string>, unflags: seq<string>, m: string -> string)
    requires KeepsApart(flags, unflags, m)
    requires forall u :: u in unflags ==> (TakesValue(m(u)) <==> TakesValue(u))
    ensures RemoveUnflagged(Map(flags, m), Map(unflags, m)) == Map(RemoveUnflagged(flags, unflags), m)
    decreases |unflags|
  {
    if unflags != [] {
      var u, rest := unflags[0], unflags[1..];
      var moved := Map(unflags, m);
      assert u in unflags && moved[0] == m(u) && moved[1..] == Map(rest, m);
      if TakesValue(u) && |unflags| > 1 {
        var v := unflags[1];
        assert v in unflags && moved[1] == m(v) && rest[1..] == unflags[2..] && moved[2..] == Map(unflags[2..], m);
        MapPair(flags, u, v, m);
        PairOnlyDrops(flags, u, v);
        StrippingCommutes(RemovePair(flags, u, v), unflags[2..], m);
      } else {
        MapToken(flags, u, m);
        KeptAfterToken(flags, u, []);
        NothingTaken(RemoveToken(flags, u), []);
        NothingTaken(flags, [u] + []);
        StrippingCommutes(RemoveToken(flags, u), rest, m);
      }
    }
  }
}

// flag_overlay.rs: language-dependent extra flags and the merge of user flags over a
// base set, with the meaning gcc gives a flag list.
module Flags {
  import opened Text
  import opened Paths

  datatype LanguageExtraFlags = LanguageExtraFlags(
    common: seq<string>, c: seq<string>, cxx: seq<string>, asm: seq<string>)

  function Lower(s: string): string {
    seq(|s|, i requires 0 <= i < |s| => if 'A' <= s[i] <= 'Z' then (s[i] as int + 32) as char else s[i])
  }

  /** The part of a path after its last slash. */
  function FileName(p: Path): string {
    if p == [] then []
    else if p[|p| - 1] == '/' then []
    else FileName(p[..|p| - 1]) + [p[|p| - 1]]
  }

  /** `Path::extension`, empty if there is none; a leading dot starts no extension. */
  function ExtensionOf(name: string): string {
    if name == [] then []
    else if name[|name| - 1] == '.' then []
    else if !HasInnerDot(name) then []
    else ExtensionOf(name[..|name| - 1]) + [name[|name| - 1]]
  }

  predicate HasInnerDot(name: string) {
    exists i :: 0 < i < |name| && name[i] == '.'
  }

  function LowerExtension(source: Path): string { Lower(ExtensionOf(FileName(source))) }

  /** `for_source`: the common flags, then those of the file's language. */
  function ForSource(extra: LanguageExtraFlags, source: Path): seq<string> {
    var ext := LowerExtension(source);
    extra.common +
    (if ext == "c" then extra.c
     else if ext == "s" || ext == "sx" || ext == "asm" || ext == "spp" then extra.asm
     else extra.cxx)
  }

  /** A file in a directory, or with an empty front in the current one. */
  function PathOf(front: string, stem: string, ext: string): Path { front + stem + "." + ext }

  predicate Named(front: string, stem: string, ext: string) {
    && (front == [] || front[|front| - 1] == '/') && stem != [] && '/' !in stem && '/' !in ext && '.' !in ext
  }

  lemma {:induction false} FileNameIs(front: string, name: string)
    requires (front == [] || front[|front| - 1] == '/') && '/' !in name
    ensures FileName(front + name) == name
  {
    var p := front + name;
    if name == [] {
      assert p == front;
    } else {
      var n := |name| - 1;
      assert p[..|p| - 1] == front + name[..n] && p[|p| - 1] == name[n];
      FileNameIs(front, name[..n]);
      assert name == name[..n] + [name[n]];
    }
  }

  lemma {:induction false} AfterLastDot(stem: string, ext: string)
    requires stem != [] && '.' !in ext
    ensures ExtensionOf(stem + "." + ext) == ext
  {
    var name := stem + "." + ext;
    assert name[|stem|] == '.';
    if ext != [] {
      var n := |ext| - 1;
      assert name[..|name| - 1] == stem + "." + ext[..n] && name[|name| - 1] == ext[n];
      AfterLastDot(stem, ext[..n]);
      assert ext == ext[..n] + [ext[n]];
    }
  }

  /** The extension is what follows the last dot of the file's name. */
  lemma ExtensionIs(front: string, stem: string, ext: string)
    requires Named(front, stem, ext)
    ensures LowerExtension(PathOf(front, stem, ext)) == Lower(ext)
  {
    var name := stem + "." + ext;
    assert PathOf(front, stem, ext) == front + name;
    FileNameIs(front, name);
    AfterLastDot(stem, ext);
  }

  lemma {:induction false} NoInnerDot(name: string)
    requires forall i :: 0 < i < |name| ==> name[i] != '.'
    ensures ExtensionOf(name) == []
  {
  }

  /** A name without a dot, or with one in front only, has no extension and is taken for C++. */
  lemma NoExtension(extra: LanguageExtraFlags, front: string, name: string)
    requires (front == [] || front[|front| - 1] == '/') && '/' !in name
    requires forall i :: 0 < i < |name| ==> name[i] != '.'
    ensures LowerExtension(front + name) == [] && ForSource(extra, front + name) == extra.common + extra.cxx
  {
    FileNameIs(front, name);
    NoInnerDot(name);
  }

  /** Which scope of extra flags a source gets, by its extension in any case. */
  lemma ScopeByExtension(extra: LanguageExtraFlags, front: string, stem: string, ext: string)
    requires Named(front, stem, ext)
    ensures (ext == "c" || ext == "C") ==> ForSource(extra, PathOf(front, stem, ext)) == extra.common + extra.c
    ensures (ext == "s" || ext == "S" || ext == "sx" || ext == "asm" || ext == "spp") ==>
              ForSource(extra, PathOf(front, stem, ext)) == extra.common + extra.asm
    ensures (ext == "cpp" || ext == "cc" || ext == "cxx" || ext == "ino") ==>
              ForSource(extra, PathOf(front, stem, ext)) == extra.common + extra.cxx
  {
    ExtensionIs(front, stem, ext);
    hide LowerExtension, PathOf;
    if ext == "C" {
      assert Lower(ext) == "c";
    } else if ext == "S" {
      assert Lower(ext) == "s";
    } else if forall i :: 0 <= i < |ext| ==> !('A' <= ext[i] <= 'Z') {
      assert Lower(ext) == ext;
      hide Lower;
      assert ext == "cpp" || ext == "cc" || ext == "cxx" || ext == "ino" ==>
               ext != "c" && ext[0] != 's' && ext[0] != 'a';
    }
  }

  // ----- merging --------------------------------------------------------------

  function UpTo(s: string, c: char): string {
    if s == [] || s[0] == c then [] else [s[0]] + UpTo(s[1..], c)
  }

  predicate IsOption(flag: string, letter: char) {
    |flag| >= 2 && flag[0] == '-' && flag[1] == letter
  }

  predicate IsStd(flag: string) {
    IsOption(flag, 's') && |flag| >= 5 && flag[2] == 't' && flag[3] == 'd' && flag[4] == '='
  }

  /** What a flag settles: the standard, the macro `define_flag_name` finds, or neither. */
  datatype Key = Std | Define(name: string) | Other

  function KeyOf(flag: string): Key {
    if IsStd(flag) then Std
    else if IsOption(flag, 'D') && Trim(UpTo(flag[2..], '=')) != [] then Define(Trim(UpTo(flag[2..], '=')))
    else Other
  }

  /** A later `flag` replaces `f`: both choose the standard, or both define one name. */
  predicate Replaces(flag: string, f: string) {
    KeyOf(flag) != Other && KeyOf(f) == KeyOf(flag)
  }

  /** `Vec::retain` of what `flag` does not replace. */
  function Retain(flags: seq<string>, flag: string): seq<string> {
    if flags == [] then []
    else if Replaces(flag, flags[0]) then Retain(flags[1..], flag)
    else [flags[0]] + Retain(flags[1..], flag)
  }

  /** Position `i` is given up when a later user flag, at or after `user`, replaces it. */
  predicate Superseded(all: seq<string>, user: nat, i: nat)
    requires i < |all|
  {
    exists j :: i < j < |all| && user <= j && Replaces(all[j], all[i])
  }

  /** The flags of `all`, from `i` on, that are not superseded, in order. */
  function Survivors(all: seq<string>, user: nat, i: nat): seq<string>
    requires i <= |all|
    decreases |all| - i
  {
    if i == |all| then []
    else if Superseded(all, user, i) then Survivors(all, user, i + 1)
    else [all[i]] + Survivors(all, user, i + 1)
  }

  lemma {:induction false} RetainLast(flags: seq<string>, last: string, flag: string)
    ensures Retain(flags + [last], flag) ==
            if Replaces(flag, last) then Retain(flags, flag) else Retain(flags, flag) + [last]
  {
    var more := flags + [last];
    if flags == [] {
      assert more == [last] && more[1..] == [];
    } else {
      assert more[1..] == flags[1..] + [last];
      RetainLast(flags[1..], last, flag);
    }
  }

  lemma SupersededStep(all: seq<string>, user: nat, i: nat, flag: string)
    requires i < |all| && user <= |all|
    ensures Superseded(all + [flag], user, i) <==> Superseded(all, user, i) || Replaces(flag, all[i])
  {
    var more := all + [flag];
    assert more[|all|] == flag && forall j :: 0 <= j < |all| ==> more[j] == all[j];
    if j :| i < j < |all| && user <= j && Replaces(all[j], all[i]) {
      assert Replaces(more[j], more[i]);
    }
    if Replaces(flag, all[i]) {
      assert Replaces(more[|all|], more[i]);
    }
  }

  /** One more user flag drops exactly the survivors it replaces. */
  lemma {:induction false} SurvivorsStep(all: seq<string>, user: nat, i: nat, flag: string)
    requires i <= |all| && user <= |all|
    ensures Survivors(all + [flag], user, i) == Retain(Survivors(all, user, i), flag) + [flag]
    decreases |all| - i
  {
    var more := all + [flag];
    if i == |all| {
      assert !Superseded(more, user, i);
      assert Survivors(more, user, i + 1) == [];
    } else {
      SurvivorsStep(all, user, i + 1, flag);
      SupersededStep(all, user, i, flag);
      assert more[i] == all[i];
      RetainStep(all[i], Survivors(all, user, i + 1), flag);
    }
  }

  lemma RetainStep(x: string, rest: seq<string>, flag: string)
    ensures Retain([x] + rest, flag) + [flag] ==
            if Replaces(flag, x) then Retain(rest, flag) + [flag] else [x] + (Retain(rest, flag) + [flag])
  {
    assert ([x] + rest)[1..] == rest;
  }

  lemma {:induction false} NoneSuperseded(base: seq<string>, i: nat)
    requires i <= |base|
    ensures Survivors(base, |base|, i) == base[i..]
    decreases |base| - i
  {
    if i < |base| {
      NoneSuperseded(base, i + 1);
      assert base[i..] == [base[i]] + base[i + 1..];
    }
  }

  /** `apply_user_flags`: what remains is every flag that no later user flag replaces. */
  method ApplyUserFlags(base: seq<string>, user: seq<string>) returns (result: seq<string>)
    ensures result == Survivors(base + user, |base|, 0)
  {
    result := base;
    NoneSuperseded(base, 0);
    assert base + user[..0] == base;
    var i := 0;
    while i < |user|
      invariant 0 <= i <= |user|
      invariant result == Survivors(base + user[..i], |base|, 0)
    {
      var flag := user[i];
      SurvivorsStep(base + user[..i], |base|, 0, flag);
      assert base + user[..i + 1] == base + user[..i] + [flag];
      if KeyOf(flag) != Other {
        result := RetainUnlike(result, flag);
      } else {
        RetainsAll(result, flag);
      }
      result := result + [flag];
      i := i + 1;
    }
    assert base + user[..|user|] == base + user;
  }

  method RetainUnlike(flags: seq<string>, flag: string) returns (kept: seq<string>)
    ensures kept == Retain(flags, flag)
  {
    kept := [];
    var i := 0;
    while i < |flags|
      invariant 0 <= i <= |flags|
      invariant kept == Retain(flags[..i], flag)
    {
      assert flags[..i + 1] == flags[..i] + [flags[i]];
      RetainLast(flags[..i], flags[i], flag);
      if !Replaces(flag, flags[i]) {
        kept := kept + [flags[i]];
      }
      i := i + 1;
    }
    assert flags[..|flags|] == flags;
  }

  lemma {:induction false} RetainsAll(flags: seq<string>, flag: string)
    requires KeyOf(flag) == Other
    ensures Retain(flags, flag) == flags
  {
    if flags != [] { RetainsAll(flags[1..], flag); }
  }

  // ----- flags as they are written ----------------------------------------------

  /** A macro with or without a value, a language standard, or any other flag. */
  datatype Word = MacroIs(name: string, value: Option<string>) | StdIs(name: string) | Any(text: string)

  function Written(w: Word): string {
    match w
    case MacroIs(name, value) => "-D" + name + (if value.Some? then "=" + value.value else [])
    case StdIs(name) => "-std=" + name
    case Any(text) => text
  }

  function AllWritten(words: seq<Word>): (r: seq<string>)
    ensures |r| == |words|
  {
    seq(|words|, i requires 0 <= i < |words| => Written(words[i]))
  }

  predicate Legible(w: Word) {
    match w
    case MacroIs(name, _) => name != [] && Trimmed(name) && '=' !in name
    case StdIs(_) => true
    case Any(text) => !("-D" <= text) && !("-std=" <= text)
  }

  /** Two words settle the same: one macro, or the standard. */
  predicate SameSubject(a: Word, b: Word) {
    (a.MacroIs? && b.MacroIs? && a.name == b.name) || (a.StdIs? && b.StdIs?)
  }

  /** The words of `all`, from `i` on, that no later user word settles anew. */
  function Merged(all: seq<Word>, user: nat, i: nat): seq<Word>
    requires i <= |all|
    decreases |all| - i
  {
    if i == |all| then []
    else if exists j :: i < j < |all| && user <= j && SameSubject(all[j], all[i]) then Merged(all, user, i + 1)
    else [all[i]] + Merged(all, user, i + 1)
  }

  lemma {:induction false} UpToFirst(s: string, c: char, rest: string)
    requires c !in s && (rest == [] || rest[0] == c)
    ensures UpTo(s + rest, c) == s
  {
    if s == [] {
      assert s + rest == rest;
    } else {
      assert (s + rest)[1..] == s[1..] + rest && s[0] in s;
      UpToFirst(s[1..], c, rest);
      assert s == [s[0]] + s[1..];
    }
  }

  lemma KeyOfWritten(w: Word)
    requires Legible(w)
    ensures KeyOf(Written(w)) == if w.MacroIs? then Define(w.name) else if w.StdIs? then Std else Other
  {
    var f := Written(w);
    match w
    case MacroIs(name, value) =>
      var rest := if value.Some? then "=" + value.value else [];
      assert f[0] == '-' && f[1] == 'D' && f[2..] == name + rest;
      UpToFirst(name, '=', rest);
      TrimExact([], name, []);
      assert [] + name + [] == name;
    case StdIs(name) =>
      assert f[0] == '-' && f[1] == 's' && f[2] == 't' && f[3] == 'd' && f[4] == '=';
    case Any(text) =>
      assert |text| >= 2 && text[0] == '-' && text[1] == 'D' ==> "-D" <= text;
      assert |text| >= 5 && text[..5] == ['-', 's', 't', 'd', '='] ==> "-std=" <= text;
  }

  /** The merge of written flags: user flags go to the end, and of the flags that define one
      macro, or choose the standard, the last user flag is left alone if there is one. */
  lemma {:induction false} MergeAsWritten(all: seq<Word>, user: nat, i: nat)
    requires i <= |all| && forall j :: 0 <= j < |all| ==> Legible(all[j])
    ensures Survivors(AllWritten(all), user, i) == AllWritten(Merged(all, user, i))
    decreases |all| - i
  {
    hide KeyOf, Written, Legible;
    if i < |all| {
      var flags := AllWritten(all);
      MergeAsWritten(all, user, i + 1);
      forall j | 0 <= j < |all| ensures Replaces(flags[j], flags[i]) <==> SameSubject(all[j], all[i]) {
        KeyOfWritten(all[j]);
        KeyOfWritten(all[i]);
      }
      hide SameSubject, Replaces;
      assert Superseded(flags, user, i) ==> exists j :: i < j < |all| && user <= j && SameSubject(all[j], all[i]);
      if j :| i < j < |all| && user <= j && SameSubject(all[j], all[i]) {
        assert Replaces(flags[j], flags[i]);
      }
    }
  }

  /** `-DX=1` from the user replaces every `-DX` before it, and `-std=` any other. */
  lemma LaterFlagWins(x: Word, y: Word, between: Word)
    requires Legible(x) && Legible(y) && Legible(between) && SameSubject(x, y) && !SameSubject(y, between)
    ensures Survivors([Written(x), Written(between), Written(y)], 2, 0) == [Written(between), Written(y)]
  {
    hide Written, Legible, KeyOf;
    var all := [x, between, y];
    MergeAsWritten(all, 2, 0);
    assert AllWritten(all) == [Written(x), Written(between), Written(y)];
    assert SameSubject(all[2], all[0]) && !SameSubject(all[2], all[1]);
    assert Merged(all, 2, 3) == [];
    assert Merged(all, 2, 2) == [y] + Merged(all, 2, 3);
    assert Merged(all, 2, 1) == [between] + Merged(all, 2, 2);
    assert Merged(all, 2, 0) == Merged(all, 2, 1);
  }

  // ----- meaning --------------------------------------------------------------

  /** The macro a `-D` name defines: a parameter list is not part of it. */
  function MacroOf(name: string): string { Trim(UpTo(name, '(')) }

  /** What one flag says of a macro: Some(Some(flag)) defines it, Some(None) removes it. */
  function Says(flag: string, macro: string): Option<Option<string>> {
    if KeyOf(flag).Define? && MacroOf(KeyOf(flag).name) == macro then Some(Some(flag))
    else if IsOption(flag, 'U') && Trim(flag[2..]) == macro then Some(None)
    else None
  }

  /** The definition in force at the end of the list: the last flag that speaks of the macro. */
  function Macro(flags: seq<string>, macro: string): Option<string> {
    if flags == [] then None
    else
      var last := Says(flags[|flags| - 1], macro);
      if last.Some? then last.value else Macro(flags[..|flags| - 1], macro)
  }

  /** The language standard in force: the last `-std=` flag. */
  function Standard(flags: seq<string>): Option<string> {
    if flags == [] then None
    else if IsStd(flags[|flags| - 1]) then Some(flags[|flags| - 1])
    else Standard(flags[..|flags| - 1])
  }

  lemma LastFlag(flags: seq<string>, flag: string, macro: string)
    ensures Macro(flags + [flag], macro) ==
            if Says(flag, macro).Some? then Says(flag, macro).value else Macro(flags, macro)
  {
    assert (flags + [flag])[..|flags|] == flags;
  }

  lemma LastStandard(flags: seq<string>, flag: string)
    ensures Standard(flags + [flag]) == if IsStd(flag) then Some(flag) else Standard(flags)
  {
    assert (flags + [flag])[..|flags|] == flags;
  }

  /** A macro the new flag does not speak of keeps its definition when flags are dropped. */
  lemma {:induction false} RetainKeepsMacro(flags: seq<string>, flag: string, macro: string)
    requires Says(flag, macro).None?
    ensures Macro(Retain(flags, flag), macro) == Macro(flags, macro)
  {
    if flags != [] {
      var n := |flags| - 1;
      assert flags == flags[..n] + [flags[n]];
      RetainLast(flags[..n], flags[n], flag);
      RetainKeepsMacro(flags[..n], flag, macro);
      if Replaces(flag, flags[n]) {
        ReplacedSaysNothing(flag, flags[n], macro);
      } else {
        LastFlag(Retain(flags[..n], flag), flags[n], macro);
      }
    }
  }

  lemma ReplacedSaysNothing(flag: string, f: string, macro: string)
    requires Replaces(flag, f) && Says(flag, macro).None?
    ensures Says(f, macro).None?
  {
  }

  lemma MergePreservesMacro(flags: seq<string>, flag: string, macro: string)
    ensures Macro(Retain(flags, flag) + [flag], macro) == Macro(flags + [flag], macro)
  {
    LastFlag(Retain(flags, flag), flag, macro);
    LastFlag(flags, flag, macro);
    if Says(flag, macro).None? {
      RetainKeepsMacro(flags, flag, macro);
    }
  }

  lemma {:induction false} RetainKeepsStandard(flags: seq<string>, flag: string)
    requires !IsStd(flag)
    ensures Standard(Retain(flags, flag)) == Standard(flags)
  {
    if flags != [] {
      var n := |flags| - 1;
      assert flags == flags[..n] + [flags[n]];
      RetainLast(flags[..n], flags[n], flag);
      RetainKeepsStandard(flags[..n], flag);
      if !Replaces(flag, flags[n]) {
        LastStandard(Retain(flags[..n], flag), flags[n]);
      }
    }
  }

  lemma MergePreservesStandard(flags: seq<string>, flag: string)
    ensures Standard(Retain(flags, flag) + [flag]) == Standard(flags + [flag])
  {
    LastStandard(Retain(flags, flag), flag);
    LastStandard(flags, flag);
    if !IsStd(flag) { RetainKeepsStandard(flags, flag); }
  }

  /** Every survivor list is what gcc would act on: same macros, same standard. */
  lemma {:induction false} SurvivorsMeanTheSame(base: seq<string>, user: seq<string>, macro: string)
    ensures Macro(Survivors(base + user, |base|, 0), macro) == Macro(base + user, macro)
    ensures Standard(Survivors(base + user, |base|, 0)) == Standard(base + user)
  {
    if user == [] {
      NoneSuperseded(base, 0);
      assert base + user == base;
    } else {
      var n := |user| - 1;
      var all := base + user[..n];
      SurvivorsMeanTheSame(base, user[..n], macro);
      assert base + user == all + [user[n]];
      SurvivorsStep(all, |base|, 0, user[n]);
      var s := Survivors(all, |base|, 0);
      MergePreservesMacro(s, user[n], macro);
      MergePreservesStandard(s, user[n]);
      LastFlag(s, user[n], macro);
      LastFlag(all, user[n], macro);
      LastStandard(s, user[n]);
      LastStandard(all, user[n]);
    }
  }
}

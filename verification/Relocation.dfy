// compiler.rs: the normalisation that is to make a cache key independent of where a project
// lies, and the flags of a project that has moved.
module Relocation {
  import opened Text
  import opened Paths
  import opened Signature
  import Flags

  // ----- path values ----------------------------------------------------------

  /** `looks_like_absolute_path` on a host with POSIX paths. */
  predicate LooksAbsolute(v: string) {
    || (v != [] && (v[0] == '/' || v[0] == '\\'))
    || (|v| > 1 && v[0] as int < 0x80 && v[1] == ':')
  }

  function SlashAt(v: string): (n: nat)
    ensures n <= |v|
  {
    if v == [] || v[0] == '/' then 0 else 1 + SlashAt(v[1..])
  }

  /** The components of a path; empty ones and `.` are none. */
  function Components(v: string): seq<string>
    decreases |v|
  {
    if v == [] then []
    else
      var n := SlashAt(v);
      var rest := if n < |v| then Components(v[n + 1..]) else [];
      if n == 0 || v[..n] == "." then rest else [v[..n]] + rest
  }

  /** The index of the first component that is `name` but for ASCII case, or their number. */
  function Position(parts: seq<string>, name: string): (i: nat)
    ensures i <= |parts|
  {
    if parts == [] || Flags.Lower(parts[0]) == name then 0 else 1 + Position(parts[1..], name)
  }

  function Start(parts: seq<string>): (i: nat)
    ensures i <= |parts|
  {
    if Position(parts, ".fbuild") < |parts| then Position(parts, ".fbuild")
    else if Position(parts, ".build") < |parts| then Position(parts, ".build")
    else if |parts| > 2 then |parts| - 2
    else 0
  }

  /** `normalize_signature_path`: from the build directory on, else the last two components. */
  function NormalizePath(v: string): string {
    var parts := Components(v);
    Join(parts[Start(parts)..], '/')
  }

  /** `normalize_signature_value_for_project`. */
  function NormalizeForProject(v: string, root: Path): string {
    if v == [] || !LooksAbsolute(v) then v
    else
      var arg := PathArg(v, root);
      if LooksAbsolute(arg) then NormalizePath(v)
      else if arg == "." then ".project"
      else ".project/" + arg
  }

  function Normalizer(root: Path): string -> string { v => NormalizeForProject(v, root) }

  // ----- what is left of a path outside the project -----------------------------

  predicate NoneNamed(parts: seq<string>, name: string) {
    forall i :: 0 <= i < |parts| ==> Flags.Lower(parts[i]) != name
  }

  lemma {:induction false} PositionAfter(front: seq<string>, tail: seq<string>, name: string)
    requires NoneNamed(front, name)
    ensures Position(front + tail, name) == |front| + Position(tail, name)
  {
    if front == [] {
      assert front + tail == tail;
    } else {
      assert (front + tail)[1..] == front[1..] + tail;
      PositionAfter(front[1..], tail, name);
    }
  }

  /** Below a build directory the path is kept from that directory on, wherever it lies. */
  lemma KeptFromBuildDirectory(v: string, front: seq<string>, tail: seq<string>)
    requires Components(v) == front + tail && tail != [] && Flags.Lower(tail[0]) == ".fbuild"
    requires NoneNamed(front, ".fbuild")
    ensures NormalizePath(v) == Join(tail, '/')
  {
    PositionAfter(front, tail, ".fbuild");
    assert (front + tail)[|front|..] == tail;
  }

  /** Without a `.fbuild` directory, so is one below a `.build` directory. */
  lemma KeptFromPlainBuildDirectory(v: string, front: seq<string>, tail: seq<string>)
    requires Components(v) == front + tail && tail != [] && Flags.Lower(tail[0]) == ".build"
    requires NoneNamed(Components(v), ".fbuild") && NoneNamed(front, ".build")
    ensures NormalizePath(v) == Join(tail, '/')
  {
    PositionAfter(Components(v), [], ".fbuild");
    assert Components(v) + [] == Components(v);
    PositionAfter(front, tail, ".build");
    assert (front + tail)[|front|..] == tail;
  }

  lemma {:induction false} SlashFree(v: string)
    ensures '/' !in v[..SlashAt(v)]
  {
    if v != [] && v[0] != '/' {
      SlashFree(v[1..]);
      assert v[..SlashAt(v)] == [v[0]] + v[1..][..SlashAt(v[1..])];
    }
  }

  lemma {:induction false} ComponentsHaveNoSlash(v: string)
    ensures forall i :: 0 <= i < |Components(v)| ==> '/' !in Components(v)[i]
    decreases |v|
  {
    if v != [] {
      SlashFree(v);
      if SlashAt(v) < |v| { ComponentsHaveNoSlash(v[SlashAt(v) + 1..]); }
    }
  }

  lemma JoinOfTwo(a: string, b: string)
    ensures Join([a, b], '/') == a + "/" + b
  {
    assert [a, b][1..] == [b];
  }

  lemma TwoAreOne(a: string, b: string, c: string, d: string)
    requires '/' !in a && '/' !in c
    ensures a + "/" + b == c + "/" + d <==> a == c && b == d
  {
    SlashAfter(a, b);
    SlashAfter(c, d);
    var s, t := a + "/" + b, c + "/" + d;
    assert s[..|a|] == a && s[|a| + 1..] == b;
    assert t[..|c|] == c && t[|c| + 1..] == d;
  }

  predicate PlainPath(v: string) {
    NoneNamed(Components(v), ".fbuild") && NoneNamed(Components(v), ".build") && |Components(v)| >= 2
  }

  lemma LastTwo(v: string)
    requires PlainPath(v)
    ensures var p := Components(v); NormalizePath(v) == p[|p| - 2] + "/" + p[|p| - 1]
  {
    var p := Components(v);
    PositionAfter(p, [], ".fbuild");
    PositionAfter(p, [], ".build");
    assert p + [] == p;
    JoinOfTwo(p[|p| - 2], p[|p| - 1]);
    assert p[Start(p)..] == [p[|p| - 2], p[|p| - 1]];
  }

  lemma SameLastTwo(p: seq<string>, q: seq<string>)
    requires |p| >= 2 && |q| >= 2
    ensures p[|p| - 2..] == q[|q| - 2..] <==> p[|p| - 2] == q[|q| - 2] && p[|p| - 1] == q[|q| - 1]
  {
    var a, b := p[|p| - 2..], q[|q| - 2..];
    assert a == [p[|p| - 2], p[|p| - 1]] && b == [q[|q| - 2], q[|q| - 1]];
    assert a == b ==> a[0] == b[0] && a[1] == b[1];
  }

  /** Two paths outside every build directory are hashed alike exactly when their last two
      components agree. */
  lemma CollideExactly(v: string, w: string)
    requires PlainPath(v) && PlainPath(w)
    ensures var p, q := Components(v), Components(w);
            NormalizePath(v) == NormalizePath(w) <==> p[|p| - 2..] == q[|q| - 2..]
  {
    var p, q := Components(v), Components(w);
    LastTwo(v);
    LastTwo(w);
    ComponentsHaveNoSlash(v);
    ComponentsHaveNoSlash(w);
    hide *;
    TwoAreOne(p[|p| - 2], p[|p| - 1], q[|q| - 2], q[|q| - 1]);
    SameLastTwo(p, q);
  }

  // ----- moving a project -----------------------------------------------------

  predicate Root(r: Path) { |r| > 1 && r[0] == '/' && r[|r| - 1] != '/' }

  /** A path below a root without empty or `.` components. */
  predicate Below(t: string) { t != [] && t[0] != '/' && Components(t) != [] }

  /** Where a path is once the project has moved from `r` to `q`. */
  function Relocate(v: string, r: Path, q: Path): string {
    if v == r then q else if Under(v, r) then q + "/" + Tail(v, r) else v
  }

  function Mover(r: Path, q: Path): string -> string { v => Relocate(v, r, q) }

  /** A value the key can follow: the root, a tail under it that does not itself look
      absolute, or a path outside both roots. */
  predicate Carried(v: string, r: Path, q: Path) {
    if v == r then true
    else if Under(v, r) then !LooksAbsolute(Tail(v, r))
    else v != q && !Under(v, q)
  }

  lemma UnderRoot(r: Path, t: string)
    ensures Under(r + "/" + t, r) && Tail(r + "/" + t, r) == t && r + "/" + t != r
  {
    var v := r + "/" + t;
    assert v[..|r|] == r && v[|r| + 1..] == t && |v| > |r|;
  }

  /** What the key makes of the root, of a path below it, and of a path that does not look
      absolute. */
  lemma MarkOfProject(root: Path, t: string, v: string)
    requires Root(root) && t != [] && t != "." && !LooksAbsolute(t) && !LooksAbsolute(v)
    ensures NormalizeForProject(root, root) == ".project"
    ensures NormalizeForProject(root + "/" + t, root) == ".project/" + t
    ensures NormalizeForProject(v, root) == v
  {
    UnderRoot(root, t);
  }

  /** A slash, a backslash or a drive letter in front makes a path look absolute; nothing else does. */
  lemma AbsoluteLooking(c: char, rest: string)
    ensures LooksAbsolute(['/'] + rest) && LooksAbsolute(['\\'] + rest)
    ensures c as int < 0x80 ==> LooksAbsolute([c, ':'] + rest)
    ensures c != '/' && c != '\\' && (rest == [] || rest[0] != ':') ==> !LooksAbsolute([c] + rest)
    ensures !LooksAbsolute([])
  {
  }

  lemma ValueRelocates(v: string, r: Path, q: Path)
    requires Root(r) && Root(q) && Carried(v, r, q)
    ensures NormalizeForProject(Relocate(v, r, q), q) == NormalizeForProject(v, r)
    ensures Relocate(v, r, q) == [] <==> v == []
  {
    if v != r && Under(v, r) {
      UnderRoot(q, Tail(v, r));
    }
  }

  lemma ComponentsBelow(name: string, t: string)
    requires name != [] && name != "." && '/' !in name
    ensures Components(['/'] + name + "/" + t) == [name] + Components(t)
  {
    var v := ['/'] + name + "/" + t;
    var w := name + "/" + t;
    assert v[1..] == w && v[0..] == v;
    SlashAfter(name, t);
    assert w[..|name|] == name && w[|name| + 1..] == t;
  }

  lemma {:induction false} SlashAfter(name: string, t: string)
    requires '/' !in name
    ensures SlashAt(name + "/" + t) == |name|
  {
    var w := name + "/" + t;
    if name != [] {
      assert w[1..] == name[1..] + "/" + t;
      SlashAfter(name[1..], t);
    }
  }

  lemma OneComponent(name: string)
    requires name != [] && name != "." && '/' !in name
    ensures Components(name) == [name]
  {
    AllOfIt(name);
    assert name[..|name|] == name;
  }

  lemma {:induction false} AllOfIt(name: string)
    requires '/' !in name
    ensures SlashAt(name) == |name|
  {
    if name != [] {
      assert name[0] in name;
      AllOfIt(name[1..]);
    }
  }

  /** A path is its components: slashes stand between them, and empty ones and `.` are none. */
  lemma {:induction false} ComponentsAre(names: seq<string>, t: string)
    requires names != []
    requires forall i :: 0 <= i < |names| ==> names[i] != [] && names[i] != "." && '/' !in names[i]
    ensures Components(Join(names, '/')) == names
    ensures Components("/" + t) == Components(t) == Components("./" + t)
  {
    DotsAndSlashes(t);
    var name := names[0];
    if |names| == 1 {
      OneComponent(name);
    } else {
      ComponentsAre(names[1..], t);
      FirstComponent(name, Join(names[1..], '/'));
      assert name + ['/'] + Join(names[1..], '/') == name + "/" + Join(names[1..], '/');
    }
  }

  lemma FirstComponent(name: string, t: string)
    requires name != [] && name != "." && '/' !in name
    ensures Components(name + "/" + t) == [name] + Components(t)
  {
    var w := name + "/" + t;
    SlashAfter(name, t);
    assert w[..|name|] == name && w[|name| + 1..] == t;
  }

  lemma DotsAndSlashes(t: string)
    ensures Components("/" + t) == Components(t) == Components("./" + t)
  {
    var s, d := "/" + t, "./" + t;
    assert s[0] == '/' && s[1..] == t;
    assert d[0] == '.' && d[1..] == s && SlashAt(s) == 0 && SlashAt(d) == 1;
    assert d[..1] == "." && d[2..] == t;
  }

  /** Outside build directories a path of one component is hashed by that. */
  lemma ShortPath(v: string)
    requires NoneNamed(Components(v), ".fbuild") && NoneNamed(Components(v), ".build") && |Components(v)| <= 2
    ensures NormalizePath(v) == Join(Components(v), '/')
  {
    var p := Components(v);
    PositionAfter(p, [], ".fbuild");
    PositionAfter(p, [], ".build");
    assert p + [] == p && p[0..] == p;
  }

  lemma {:induction false} SuffixIsShorter(parts: seq<string>, k: nat)
    requires k <= |parts|
    ensures |Join(parts[k..], '/')| <= |Join(parts, '/')|
  {
    if k == 0 {
      assert parts[0..] == parts;
    } else {
      SuffixIsShorter(parts[1..], k - 1);
      assert parts[1..][k - 1..] == parts[k..];
    }
  }

  /** A tail that looks absolute drops the key back to the last components of the whole
      path, and those name the root. */
  lemma DriveLikeTailNamesItsRoot(t: string)
    requires Below(t) && LooksAbsolute(t)
    ensures NormalizeForProject("/.fbuild" + "/" + t, "/.fbuild") != NormalizeForProject("/b" + "/" + t, "/b")
  {
    var parts := Components(t);
    var one, other := "/.fbuild" + "/" + t, "/b" + "/" + t;
    UnderRoot("/.fbuild", t);
    UnderRoot("/b", t);
    assert one == ['/'] + ".fbuild" + "/" + t && other == ['/'] + "b" + "/" + t;
    ComponentsBelow(".fbuild", t);
    ComponentsBelow("b", t);
    FromBuildDirectory(parts);
    FromOtherRoot(parts);
  }

  lemma FromBuildDirectory(parts: seq<string>)
    requires parts != []
    ensures var all := [".fbuild"] + parts;
            Start(all) == 0 && Join(all[0..], '/') == ".fbuild" + ['/'] + Join(parts, '/')
  {
    var all := [".fbuild"] + parts;
    assert Flags.Lower(".fbuild") == ".fbuild";
    assert all[0..] == all && all[1..] == parts;
  }

  lemma FromOtherRoot(parts: seq<string>)
    requires parts != []
    ensures var all := ["b"] + parts;
            var text := Join(all[Start(all)..], '/');
            |text| <= |Join(parts, '/')| || (text != [] && text[0] == 'b')
  {
    var all := ["b"] + parts;
    var k := Start(all);
    assert all[1..] == parts;
    if k == 0 {
      assert all[0..] == all;
    } else {
      SuffixIsShorter(parts, k - 1);
      assert all[k..] == parts[k - 1..];
    }
  }

  /** The path is hashed alike wherever the project lies. */
  ghost predicate FollowsProject(t: string) {
    forall r, q :: Root(r) && Root(q) ==>
      NormalizeForProject(r + "/" + t, r) == NormalizeForProject(q + "/" + t, q)
  }

  lemma PlainTailFollows(t: string)
    requires !LooksAbsolute(t)
    ensures FollowsProject(t)
  {
    forall r, q | Root(r) && Root(q)
      ensures NormalizeForProject(r + "/" + t, r) == NormalizeForProject(q + "/" + t, q)
    {
      UnderRoot(r, t);
      UnderRoot(q, t);
    }
  }

  /** A path below the project follows it exactly when its tail does not look absolute, as
      `c:x` does. */
  lemma RelocatesExactly(t: string)
    requires Below(t)
    ensures FollowsProject(t) <==> !LooksAbsolute(t)
  {
    if LooksAbsolute(t) {
      DriveLikeTailNamesItsRoot(t);
      var r: Path, q: Path := "/.fbuild", "/b";
      assert Root(r) && Root(q);
      hide NormalizeForProject, Root, LooksAbsolute;
      assert NormalizeForProject(r + "/" + t, r) != NormalizeForProject(q + "/" + t, q);
    } else {
      PlainTailFollows(t);
    }
  }

  // ----- flags of a moved project ---------------------------------------------

  function PrefixOf(flag: string, k: nat): (i: nat)
    requires k <= |PATH_PREFIXES|
    ensures k <= i <= |PATH_PREFIXES|
    ensures i < |PATH_PREFIXES| ==> PATH_PREFIXES[i] <= flag
    decreases |PATH_PREFIXES| - k
  {
    if k == |PATH_PREFIXES| || PATH_PREFIXES[k] <= flag then k else PrefixOf(flag, k + 1)
  }

  function Operand(flag: string, i: nat): string
    requires i < |PATH_PREFIXES| && PATH_PREFIXES[i] <= flag
  {
    flag[|PATH_PREFIXES[i]|..]
  }

  lemma {:induction false} NormalizedByPrefix(flag: string, norm: string -> string, k: nat)
    requires k <= |PATH_PREFIXES|
    ensures var i := PrefixOf(flag, k);
            NormalizeFlagFrom(flag, norm, k)
              == if i == |PATH_PREFIXES| then flag else PATH_PREFIXES[i] + norm(Operand(flag, i))
    decreases |PATH_PREFIXES| - k
  {
    if k < |PATH_PREFIXES| && !(PATH_PREFIXES[k] <= flag) {
      NormalizedByPrefix(flag, norm, k + 1);
    }
  }

  lemma PrefixesDiffer(k: nat, i: nat, v: string)
    requires k < i < |PATH_PREFIXES|
    ensures !(PATH_PREFIXES[k] <= PATH_PREFIXES[i] + v)
  {
    var p, f := PATH_PREFIXES[k], PATH_PREFIXES[i] + v;
    assert p[1] != f[1] || p[2] != f[2];
  }

  lemma {:induction false} PrefixOfAttached(i: nat, v: string, k: nat)
    requires k <= i < |PATH_PREFIXES|
    ensures PrefixOf(PATH_PREFIXES[i] + v, k) == i
    decreases i - k
  {
    if k < i {
      PrefixesDiffer(k, i, v);
      PrefixOfAttached(i, v, k + 1);
    }
  }

  /** A recognised operand of a flag is carried. */
  predicate FlagCarried(flag: string, r: Path, q: Path) {
    var i := PrefixOf(flag, 0);
    i < |PATH_PREFIXES| ==> Carried(Operand(flag, i), r, q)
  }

  lemma SplitFlagStays(i: nat, v: string, w: string)
    requires i < |PATH_PREFIXES| && (v == [] <==> w == [])
    ensures IsSplitPathFlag(PATH_PREFIXES[i] + v) == IsSplitPathFlag(PATH_PREFIXES[i] + w)
  {
    var p := PATH_PREFIXES[i];
    if v == [] {
      assert p + v == p == p + w;
    } else {
      NoOperandInSplitFlag(i, v);
      NoOperandInSplitFlag(i, w);
    }
  }

  lemma NoOperandInSplitFlag(i: nat, v: string)
    requires i < |PATH_PREFIXES| && v != []
    ensures !IsSplitPathFlag(PATH_PREFIXES[i] + v)
  {
    var f := PATH_PREFIXES[i] + v;
    if i == 0 {
      assert f[0] == '-' && f[1] == 'I' && |f| > 2;
    } else {
      assert f[|PATH_PREFIXES[i]| - 1] == '=';
    }
  }

  lemma FlagRelocates(flag: string, r: Path, q: Path)
    requires Root(r) && Root(q) && FlagCarried(flag, r, q)
    ensures var moved := NormalizeFlag(flag, Mover(r, q));
            && NormalizeFlag(moved, Normalizer(q)) == NormalizeFlag(flag, Normalizer(r))
            && IsSplitPathFlag(moved) == IsSplitPathFlag(flag)
  {
    var i := PrefixOf(flag, 0);
    NormalizedByPrefix(flag, Mover(r, q), 0);
    NormalizedByPrefix(flag, Normalizer(r), 0);
    var moved := NormalizeFlag(flag, Mover(r, q));
    NormalizedByPrefix(moved, Normalizer(q), 0);
    if i < |PATH_PREFIXES| {
      var v := Operand(flag, i);
      var w := Relocate(v, r, q);
      assert flag == PATH_PREFIXES[i] + v && moved == PATH_PREFIXES[i] + w;
      ValueRelocates(v, r, q);
      PrefixOfAttached(i, w, 0);
      assert Operand(moved, i) == w;
      SplitFlagStays(i, v, w);
    }
  }

  /** Every recognised path operand of a group, attached or split, is carried. */
  predicate GroupCarried(group: seq<string>, expects: bool, r: Path, q: Path) {
    group != [] ==>
      if expects then Carried(group[0], r, q) && GroupCarried(group[1..], false, r, q)
      else FlagCarried(group[0], r, q) && GroupCarried(group[1..], IsSplitPathFlag(group[0]), r, q)
  }

  /** Moving the recognised operands of a group with the project leaves what is hashed. */
  lemma {:induction false} GroupRelocates(group: seq<string>, expects: bool, r: Path, q: Path)
    requires Root(r) && Root(q) && GroupCarried(group, expects, r, q)
    ensures NormalizeGroup(NormalizeGroup(group, expects, Mover(r, q)), expects, Normalizer(q))
         == NormalizeGroup(group, expects, Normalizer(r))
  {
    if group != [] {
      var moved := NormalizeGroup(group, expects, Mover(r, q));
      if expects {
        ValueRelocates(group[0], r, q);
        GroupRelocates(group[1..], false, r, q);
        assert moved[1..] == NormalizeGroup(group[1..], false, Mover(r, q));
      } else {
        FlagRelocates(group[0], r, q);
        GroupRelocates(group[1..], IsSplitPathFlag(group[0]), r, q);
        assert moved[1..] == NormalizeGroup(group[1..], IsSplitPathFlag(group[0]), Mover(r, q));
      }
    }
  }
}

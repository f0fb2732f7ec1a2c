// Rebuild signatures: the bytes compiler.rs feeds to its hash, on the side that plans
// and on the side that stamps, and why those bytes can be read back in one way only.
module Signature {
  import opened Text
  import opened Paths
  import opened Utf8
  import opened Unflags
  import Flags

  // ----- normalisation --------------------------------------------------------

  predicate IsSplitPathFlag(flag: string) {
    flag in {"-I", "-isystem", "-iquote", "-include", "--sysroot"}
  }

  const PATH_PREFIXES: seq<string> := ["-I", "-isystem=", "-iquote=", "-include=", "--sysroot="]

  function NormalizeFlagFrom(flag: string, norm: string -> string, k: nat): string
    requires k <= |PATH_PREFIXES|
    decreases |PATH_PREFIXES| - k
  {
    if k == |PATH_PREFIXES| then flag
    else if PATH_PREFIXES[k] <= flag then PATH_PREFIXES[k] + norm(flag[|PATH_PREFIXES[k]|..])
    else NormalizeFlagFrom(flag, norm, k + 1)
  }

  /** `normalize_signature_flag`: the first prefix that fits has its value normalised. */
  function NormalizeFlag(flag: string, norm: string -> string): string {
    NormalizeFlagFrom(flag, norm, 0)
  }

  /** The flags of a group as they are hashed; `expects` says the first is a split operand. */
  function NormalizeGroup(group: seq<string>, expects: bool, norm: string -> string): seq<string> {
    if group == [] then []
    else if expects then [norm(group[0])] + NormalizeGroup(group[1..], false, norm)
    else [NormalizeFlag(group[0], norm)] + NormalizeGroup(group[1..], IsSplitPathFlag(group[0]), norm)
  }

  // ----- the hashed bytes -----------------------------------------------------

  /** Each field followed by a zero byte. */
  function Fields(fields: seq<string>): seq<Byte> {
    if fields == [] then [] else Encode(fields[0]) + [0] + Fields(fields[1..])
  }

  /** Stem and version of the compiler: its identity, joined by a NUL. */
  datatype Identity = Identity(stem: string, version: string)

  function GroupBytes(group: seq<string>): seq<Byte> { Fields(group) + [0xFF] }

  function StreamBytes(id: Identity, groups: seq<seq<string>>): seq<Byte> {
    Fields([id.stem, id.version]) + GroupsBytes(groups)
  }

  function GroupsBytes(groups: seq<seq<string>>): seq<Byte> {
    if groups == [] then [] else GroupBytes(groups[0]) + GroupsBytes(groups[1..])
  }

  /** A hasher is the bytes it has been fed. */
  class Hasher {
    var bytes: seq<Byte>

    constructor ()
      ensures bytes == []
    {
      bytes := [];
    }

    method Update(data: seq<Byte>)
      modifies this
      ensures bytes == old(bytes) + data
    {
      bytes := bytes + data;
    }
  }

  lemma FieldsStep(bytes: seq<Byte>, first: string, rest: seq<string>)
    ensures bytes + Fields([first] + rest) == bytes + Encode(first) + [0] + Fields(rest)
  {
    assert ([first] + rest)[1..] == rest;
    assert bytes + (Encode(first) + [0] + Fields(rest)) == bytes + Encode(first) + [0] + Fields(rest);
  }

  /** The loop of `hash_signature_group`. */
  method HashSignatureGroup(hasher: Hasher, group: seq<string>, norm: string -> string)
    modifies hasher
    ensures hasher.bytes == old(hasher.bytes) + Fields(NormalizeGroup(group, false, norm))
  {
    var expectsPathValue := false;
    ghost var total := hasher.bytes + Fields(NormalizeGroup(group, false, norm));
    ghost var todo := NormalizeGroup(group, false, norm);
    assert group[0..] == group;
    var i := 0;
    while i < |group|
      invariant 0 <= i <= |group|
      invariant todo == NormalizeGroup(group[i..], expectsPathValue, norm)
      invariant hasher.bytes + Fields(todo) == total
    {
      var flag := group[i];
      assert group[i..][1..] == group[i + 1..];
      var normalized;
      if expectsPathValue {
        expectsPathValue := false;
        normalized := norm(flag);
      } else {
        expectsPathValue := IsSplitPathFlag(flag);
        normalized := NormalizeFlag(flag, norm);
      }
      todo := NormalizeGroup(group[i + 1..], expectsPathValue, norm);
      FieldsStep(hasher.bytes, normalized, todo);
      hasher.Update(Encode(normalized));
      hasher.Update([0]);
      i := i + 1;
    }
    assert hasher.bytes + [] == hasher.bytes;
  }

  lemma GroupsStep(bytes: seq<Byte>, groups: seq<seq<string>>, norm: string -> string)
    requires groups != []
    ensures bytes + GroupsBytes(NormalizedGroups(groups, norm)) ==
            bytes + Fields(NormalizeGroup(groups[0], false, norm)) + [0xFF]
              + GroupsBytes(NormalizedGroups(groups[1..], norm))
  {
    var ns := NormalizedGroups(groups, norm);
    var rest := GroupsBytes(NormalizedGroups(groups[1..], norm));
    assert ns[1..] == NormalizedGroups(groups[1..], norm);
    AssociateFour(bytes, Fields(ns[0]), [0xFF], rest);
  }

  /** The group loop of `build_rebuild_signature_with_normalizer`. */
  method HashGroups(hasher: Hasher, groups: seq<seq<string>>, norm: string -> string)
    modifies hasher
    ensures hasher.bytes == old(hasher.bytes) + GroupsBytes(NormalizedGroups(groups, norm))
  {
    ghost var total := hasher.bytes + GroupsBytes(NormalizedGroups(groups, norm));
    assert groups[0..] == groups;
    var g := 0;
    while g < |groups|
      invariant 0 <= g <= |groups|
      invariant hasher.bytes + GroupsBytes(NormalizedGroups(groups[g..], norm)) == total
    {
      assert groups[g..][1..] == groups[g + 1..];
      GroupsStep(hasher.bytes, groups[g..], norm);
      HashSignatureGroup(hasher, groups[g], norm);
      hasher.Update([0xFF]);
      g := g + 1;
    }
    assert hasher.bytes + [] == hasher.bytes;
  }

  /** `build_rebuild_signature_with_normalizer`, up to the digest. */
  method FeedSignature(id: Identity, flags: seq<string>, pre: seq<string>, extra: seq<string>,
                       unflags: seq<string>, norm: string -> string) returns (bytes: seq<Byte>)
    ensures bytes == SignatureBytes(id, flags, pre, extra, unflags, norm)
  {
    var strippedFlags, strippedExtra := flags, extra;
    if unflags != [] {
      strippedFlags := RemoveUnflaggedTokens(flags, unflags);
      strippedExtra := RemoveUnflaggedTokens(extra, unflags);
    }
    var hasher := new Hasher();
    hasher.Update(Encode(id.stem));
    hasher.Update([0]);
    hasher.Update(Encode(id.version));
    hasher.Update([0]);
    HeaderBytes(id);
    HashGroups(hasher, [strippedFlags, pre, strippedExtra], norm);
    bytes := hasher.bytes;
  }

  lemma HeaderBytes(id: Identity)
    ensures Fields([id.stem, id.version]) == [] + Encode(id.stem) + [0] + Encode(id.version) + [0]
  {
    assert [id.stem, id.version][1..] == [id.version];
    assert [id.version][1..] == [];
    assert Fields([id.version]) == Encode(id.version) + [0] + [];
  }

  function NormalizedGroups(groups: seq<seq<string>>, norm: string -> string): seq<seq<string>> {
    if groups == [] then [] else [NormalizeGroup(groups[0], false, norm)] + NormalizedGroups(groups[1..], norm)
  }

  function SignatureBytes(id: Identity, flags: seq<string>, pre: seq<string>, extra: seq<string>,
                          unflags: seq<string>, norm: string -> string): seq<Byte>
  {
    StreamBytes(id, NormalizedGroups([RemoveUnflagged(flags, unflags), pre, RemoveUnflagged(extra, unflags)], norm))
  }

  // ----- unique decodability --------------------------------------------------

  ghost predicate CleanFields(fields: seq<string>) {
    forall i :: 0 <= i < |fields| ==> NulFree(fields[i])
  }

  /** Two clean runs of bytes, each closed by a delimiter, agree up to and past it. */
  lemma {:induction false} SplitAtDelimiter(a: seq<Byte>, d: Byte, x: seq<Byte>, b: seq<Byte>, e: Byte, y: seq<Byte>)
    requires Clean(a) && Clean(b) && (d == 0 || d == 0xFF) && (e == 0 || e == 0xFF)
    requires a + [d] + x == b + [e] + y
    ensures a == b && d == e && x == y
  {
    var s, t := a + [d] + x, b + [e] + y;
    assert s[|a|] == d && t[|b|] == e;
    assert (forall k :: 0 <= k < |a| ==> s[k] == a[k]) && (forall k :: 0 <= k < |b| ==> t[k] == b[k]);
    assert a == s[..|a|] && b == t[..|b|];
    assert x == s[|a| + 1..] && y == t[|b| + 1..];
  }

  /** A list of fields closed by 0xFF is recovered together with what follows it. */
  lemma {:induction false} GroupDecodes(g: seq<string>, x: seq<Byte>, h: seq<string>, y: seq<Byte>)
    requires CleanFields(g) && CleanFields(h)
    requires Fields(g) + [0xFF] + x == Fields(h) + [0xFF] + y
    ensures g == h && x == y
  {
    var a, da, ra := FieldsHead(g, x);
    var b, db, rb := FieldsHead(h, y);
    SplitAtDelimiter(a, da, ra, b, db, rb);
    if g != [] {
      EncodeInjective(g[0], h[0]);
      GroupDecodes(g[1..], x, h[1..], y);
      assert g == [g[0]] + g[1..] && h == [h[0]] + h[1..];
    }
  }

  /** The first field of a group, or nothing, and the delimiter after it. */
  lemma FieldsHead(g: seq<string>, x: seq<Byte>) returns (a: seq<Byte>, d: Byte, rest: seq<Byte>)
    requires CleanFields(g)
    ensures Clean(a) && Fields(g) + [0xFF] + x == a + [d] + rest
    ensures if g == [] then a == [] && d == 0xFF && rest == x
            else a == Encode(g[0]) && d == 0 && rest == Fields(g[1..]) + [0xFF] + x
  {
    if g == [] {
      a, d, rest := [], 0xFF, x;
    } else {
      EncodedIsClean(g[0]);
      a, d, rest := Encode(g[0]), 0, Fields(g[1..]) + [0xFF] + x;
      assert Fields(g) + [0xFF] + x == a + [d] + rest;
    }
  }

  lemma {:induction false} GroupsDecode(gs: seq<seq<string>>, hs: seq<seq<string>>)
    requires forall i :: 0 <= i < |gs| ==> CleanFields(gs[i])
    requires forall i :: 0 <= i < |hs| ==> CleanFields(hs[i])
    requires GroupsBytes(gs) == GroupsBytes(hs)
    ensures gs == hs
  {
    if gs != [] && hs != [] {
      GroupDecodes(gs[0], GroupsBytes(gs[1..]), hs[0], GroupsBytes(hs[1..]));
      GroupsDecode(gs[1..], hs[1..]);
      assert gs == [gs[0]] + gs[1..] && hs == [hs[0]] + hs[1..];
    }
  }

  /** One field and its zero byte are recovered together with what follows. */
  lemma FieldDecodes(f: string, x: seq<Byte>, g: string, y: seq<Byte>)
    requires NulFree(f) && NulFree(g)
    requires Encode(f) + [0] + x == Encode(g) + [0] + y
    ensures f == g && x == y
  {
    EncodedIsClean(f);
    EncodedIsClean(g);
    SplitAtDelimiter(Encode(f), 0, x, Encode(g), 0, y);
    EncodeInjective(f, g);
  }

  ghost predicate CleanStream(id: Identity, groups: seq<seq<string>>) {
    && NulFree(id.stem) && NulFree(id.version)
    && forall i :: 0 <= i < |groups| ==> CleanFields(groups[i])
  }

  lemma StreamAsFields(id: Identity, groups: seq<seq<string>>)
    ensures StreamBytes(id, groups)
         == Encode(id.stem) + [0] + (Encode(id.version) + [0] + GroupsBytes(groups))
  {
    HeaderBytes(id);
  }

  /** The bytes fed to the hash determine the compiler identity and every normalised flag. */
  lemma StreamDecodes(id: Identity, gs: seq<seq<string>>, id': Identity, hs: seq<seq<string>>)
    requires CleanStream(id, gs) && CleanStream(id', hs)
    ensures StreamBytes(id, gs) == StreamBytes(id', hs) <==> id == id' && gs == hs
  {
    StreamAsFields(id, gs);
    StreamAsFields(id', hs);
    if StreamBytes(id, gs) == StreamBytes(id', hs) {
      var x, y := GroupsBytes(gs), GroupsBytes(hs);
      FieldDecodes(id.stem, Encode(id.version) + [0] + x, id'.stem, Encode(id'.version) + [0] + y);
      FieldDecodes(id.version, x, id'.version, y);
      GroupsDecode(gs, hs);
    }
  }

  // ----- what a signature holds -------------------------------------------------

  /** Everything a signature is made from. */
  datatype Inputs = Inputs(id: Identity, flags: seq<string>, pre: seq<string>, extra: seq<string>,
                           unflags: seq<string>)

  function Of(x: Inputs, norm: string -> string): seq<Byte> {
    SignatureBytes(x.id, x.flags, x.pre, x.extra, x.unflags, norm)
  }

  ghost predicate CleanInputs(x: Inputs, norm: string -> string) {
    && NulFree(x.id.stem) && NulFree(x.id.version)
    && CleanFields(NormalizeGroup(RemoveUnflagged(x.flags, x.unflags), false, norm))
    && CleanFields(NormalizeGroup(x.pre, false, norm))
    && CleanFields(NormalizeGroup(RemoveUnflagged(x.extra, x.unflags), false, norm))
  }

  /** Nothing that goes into a signature is lost and nothing else goes in: two are equal exactly
      when the compilers are and, group by group, the flags left by the unflags, the pre-flags
      and the extra flags left by the unflags, as normalised. */
  lemma SignatureDecodes(a: Inputs, b: Inputs, norm: string -> string)
    requires CleanInputs(a, norm) && CleanInputs(b, norm)
    ensures Of(a, norm) == Of(b, norm)
            <==> && a.id == b.id
                 && NormalizeGroup(RemoveUnflagged(a.flags, a.unflags), false, norm)
                    == NormalizeGroup(RemoveUnflagged(b.flags, b.unflags), false, norm)
                 && NormalizeGroup(a.pre, false, norm) == NormalizeGroup(b.pre, false, norm)
                 && NormalizeGroup(RemoveUnflagged(a.extra, a.unflags), false, norm)
                    == NormalizeGroup(RemoveUnflagged(b.extra, b.unflags), false, norm)
  {
    var f, e := RemoveUnflagged(a.flags, a.unflags), RemoveUnflagged(a.extra, a.unflags);
    var g, h := RemoveUnflagged(b.flags, b.unflags), RemoveUnflagged(b.extra, b.unflags);
    hide RemoveUnflagged, NormalizeGroup, StreamBytes, CleanFields;
    ThreeGroups(f, a.pre, e, norm);
    ThreeGroups(g, b.pre, h, norm);
    var gs, hs := NormalizedGroups([f, a.pre, e], norm), NormalizedGroups([g, b.pre, h], norm);
    StreamDecodes(a.id, gs, b.id, hs);
    assert gs == hs ==> gs[0] == hs[0] && gs[1] == hs[1] && gs[2] == hs[2];
  }

  /** The options whose next word is a path, and the prefixes that a path follows at once: that
      path is normalised, and a flag that starts with no such prefix is hashed as it is. */
  lemma OperandsAreNormalized(option: string, prefix: string, v: string, rest: seq<string>, norm: string -> string)
    requires option == "-I" || option == "-isystem" || option == "-iquote" || option == "-include"
             || option == "--sysroot"
    requires prefix == "-I" || prefix == "-isystem=" || prefix == "-iquote=" || prefix == "-include="
             || prefix == "--sysroot="
    ensures NormalizeGroup([option, v] + rest, false, norm)
         == [NormalizeFlag(option, norm), norm(v)] + NormalizeGroup(rest, false, norm)
    ensures NormalizeFlag(prefix + v, norm) == prefix + norm(v)
    ensures option != "-I" ==> NormalizeFlag(option, norm) == option
  {
    OptionTakesPath(option, v, rest, norm);
    PrefixTakesPath(prefix, v, norm);
    if option != "-I" { OptionIsPlain(option, norm); }
  }

  lemma OptionTakesPath(option: string, v: string, rest: seq<string>, norm: string -> string)
    requires IsSplitPathFlag(option)
    ensures NormalizeGroup([option, v] + rest, false, norm)
         == [NormalizeFlag(option, norm), norm(v)] + NormalizeGroup(rest, false, norm)
  {
    hide IsSplitPathFlag, NormalizeFlag;
    var all := [option, v] + rest;
    assert all[1..] == [v] + rest && all[1..][1..] == rest;
  }

  lemma PrefixTakesPath(prefix: string, v: string, norm: string -> string)
    requires prefix in PATH_PREFIXES
    ensures NormalizeFlag(prefix + v, norm) == prefix + norm(v)
  {
    var k :| 0 <= k < |PATH_PREFIXES| && PATH_PREFIXES[k] == prefix;
    PrefixIsFirst(k, v, norm, 0);
  }

  lemma {:induction false} PrefixIsFirst(k: nat, v: string, norm: string -> string, from: nat)
    requires from <= k < |PATH_PREFIXES|
    ensures NormalizeFlagFrom(PATH_PREFIXES[k] + v, norm, from) == PATH_PREFIXES[k] + norm(v)
    decreases k - from
  {
    var p, f := PATH_PREFIXES[k], PATH_PREFIXES[k] + v;
    if from < k {
      var q := PATH_PREFIXES[from];
      assert q[1] != f[1] || q[2] != f[2];
      PrefixIsFirst(k, v, norm, from + 1);
    } else {
      assert f[|p|..] == v;
    }
  }

  /** A flag that starts with none of the prefixes is hashed as it is. */
  lemma OtherFlagIsPlain(flag: string, norm: string -> string)
    requires !("-I" <= flag) && !("-isystem=" <= flag) && !("-iquote=" <= flag)
    requires !("-include=" <= flag) && !("--sysroot=" <= flag)
    ensures NormalizeFlag(flag, norm) == flag
  {
    NonePrefixed(flag, norm, 0);
  }

  lemma {:induction false} NonePrefixed(flag: string, norm: string -> string, from: nat)
    requires from <= |PATH_PREFIXES| && forall k :: 0 <= k < |PATH_PREFIXES| ==> !(PATH_PREFIXES[k] <= flag)
    ensures NormalizeFlagFrom(flag, norm, from) == flag
    decreases |PATH_PREFIXES| - from
  {
    if from < |PATH_PREFIXES| { NonePrefixed(flag, norm, from + 1); }
  }

  lemma OptionIsPlain(option: string, norm: string -> string)
    requires option == "-isystem" || option == "-iquote" || option == "-include" || option == "--sysroot"
    ensures NormalizeFlag(option, norm) == option
  {
    assert option[1] != 'I';
    assert forall i :: 0 <= i < |option| ==> option[i] != '=';
    assert forall k :: 0 < k < |PATH_PREFIXES| ==> PATH_PREFIXES[k][|PATH_PREFIXES[k]| - 1] == '=';
    NonePrefixed(option, norm, 0);
  }

  // ----- the two sides of a signature -----------------------------------------

  datatype Compiler = Compiler(
    gcc: Identity, gxx: Identity,
    cFlags: seq<string>, cxxFlags: seq<string>,
    unflags: seq<string>)

  function Driver(c: Compiler, source: Path): (Identity, seq<string>) {
    var ext := Flags.LowerExtension(source);
    if ext == "c" || ext == "s" then (c.gcc, c.cFlags) else (c.gxx, c.cxxFlags)
  }

  /** `rebuild_signature`: what the planner hashes, with the platform's pre-flags. */
  function PlannedBytes(c: Compiler, source: Path, pre: seq<string>, extra: seq<string>,
                        norm: string -> string): seq<Byte>
  {
    var d := Driver(c, source);
    SignatureBytes(d.0, d.1, pre, extra, c.unflags, norm)
  }

  /** `compile` through `compile_source`: unflags first, then the stamp's hash with none. */
  function StampedBytes(c: Compiler, source: Path, pre: seq<string>, extra: seq<string>,
                        norm: string -> string): seq<Byte>
  {
    var d := Driver(c, source);
    SignatureBytes(d.0, RemoveUnflagged(d.1, c.unflags), pre, RemoveUnflagged(extra, c.unflags), [], norm)
  }

  /** Which driver compiles a source, by its extension in any case. */
  lemma DriverByExtension(c: Compiler, front: string, stem: string, ext: string)
    requires Flags.Named(front, stem, ext)
    ensures (ext == "c" || ext == "C" || ext == "s" || ext == "S") ==>
              Driver(c, Flags.PathOf(front, stem, ext)) == (c.gcc, c.cFlags)
    ensures (ext == "cpp" || ext == "CPP" || ext == "cc" || ext == "cxx" || ext == "ino" || ext == "sx") ==>
              Driver(c, Flags.PathOf(front, stem, ext)) == (c.gxx, c.cxxFlags)
  {
    Flags.ExtensionIs(front, stem, ext);
    hide Flags.LowerExtension;
    assert ext == "C" ==> Flags.Lower(ext) == "c";
    assert ext == "S" ==> Flags.Lower(ext) == "s";
    assert ext == "CPP" ==> Flags.Lower(ext)[1] == 'p';
  }

  /** Two compilers plan alike exactly when driver, flags and extra flags are alike as hashed. */
  lemma PlannedDecodes(c: Compiler, d: Compiler, source: Path, pre: seq<string>, pre': seq<string>,
                       extra: seq<string>, extra': seq<string>, norm: string -> string)
    requires CleanInputs(Inputs(Driver(c, source).0, Driver(c, source).1, pre, extra, c.unflags), norm)
    requires CleanInputs(Inputs(Driver(d, source).0, Driver(d, source).1, pre', extra', d.unflags), norm)
    ensures PlannedBytes(c, source, pre, extra, norm) == PlannedBytes(d, source, pre', extra', norm)
            <==> && Driver(c, source).0 == Driver(d, source).0
                 && NormalizeGroup(RemoveUnflagged(Driver(c, source).1, c.unflags), false, norm)
                    == NormalizeGroup(RemoveUnflagged(Driver(d, source).1, d.unflags), false, norm)
                 && NormalizeGroup(pre, false, norm) == NormalizeGroup(pre', false, norm)
                 && NormalizeGroup(RemoveUnflagged(extra, c.unflags), false, norm)
                    == NormalizeGroup(RemoveUnflagged(extra', d.unflags), false, norm)
  {
    hide RemoveUnflagged, NormalizeGroup, CleanInputs, SignatureBytes, Driver;
    SignatureDecodes(Inputs(Driver(c, source).0, Driver(c, source).1, pre, extra, c.unflags),
                     Inputs(Driver(d, source).0, Driver(d, source).1, pre', extra', d.unflags), norm);
  }

  /** With the same pre-flags both sides feed the same bytes: unflags are stripped once on each. */
  lemma StampedIsPlanned(c: Compiler, source: Path, pre: seq<string>, extra: seq<string>, norm: string -> string)
    ensures StampedBytes(c, source, pre, extra, norm) == PlannedBytes(c, source, pre, extra, norm)
  {
    var flags := RemoveUnflagged(Driver(c, source).1, c.unflags);
    assert RemoveUnflagged(flags, []) == flags;
    assert RemoveUnflagged(RemoveUnflagged(extra, c.unflags), []) == RemoveUnflagged(extra, c.unflags);
  }

  /** The stamp equals the planned signature exactly when both sides hash the same
      normalised pre-flags; unflags never part them. */
  lemma StampMatchesPlan(c: Compiler, source: Path, planned: seq<string>, stamped: seq<string>,
                         extra: seq<string>, norm: string -> string)
    requires NulFree(Driver(c, source).0.stem) && NulFree(Driver(c, source).0.version)
    requires CleanFields(NormalizeGroup(RemoveUnflagged(Driver(c, source).1, c.unflags), false, norm))
    requires CleanFields(NormalizeGroup(RemoveUnflagged(extra, c.unflags), false, norm))
    requires CleanFields(NormalizeGroup(planned, false, norm)) && CleanFields(NormalizeGroup(stamped, false, norm))
    ensures PlannedBytes(c, source, planned, extra, norm) == StampedBytes(c, source, stamped, extra, norm)
            <==> NormalizeGroup(planned, false, norm) == NormalizeGroup(stamped, false, norm)
  {
    var d := Driver(c, source);
    var f, e := RemoveUnflagged(d.1, c.unflags), RemoveUnflagged(extra, c.unflags);
    ThreeGroups(f, planned, e, norm);
    ThreeGroups(f, stamped, e, norm);
    var gs := NormalizedGroups([f, planned, e], norm);
    var hs := NormalizedGroups([f, stamped, e], norm);
    StreamDecodes(d.0, gs, d.0, hs);
    assert gs[1] == NormalizeGroup(planned, false, norm) && hs[1] == NormalizeGroup(stamped, false, norm);
  }

  lemma ThreeGroups(a: seq<string>, b: seq<string>, c: seq<string>, norm: string -> string)
    ensures NormalizedGroups([a, b, c], norm)
         == [NormalizeGroup(a, false, norm), NormalizeGroup(b, false, norm), NormalizeGroup(c, false, norm)]
  {
    assert [a, b, c][1..] == [b, c] && [b, c][1..] == [c] && [c][1..] == [];
    assert NormalizedGroups([c], norm) == [NormalizeGroup(c, false, norm)];
  }
}

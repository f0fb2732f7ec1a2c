// When a hydrate is vouched for: what equal cache keys say of the signatures that compiler.rs
// stamps into the objects and plans with.
module Vouching {
  import opened Text
  import opened Paths
  import opened Utf8
  import opened Signature
  import opened Unflags
  import opened Relocation
  import opened CacheKey
  import Flags
  import W = Workspace
  import CoreCache

  /** `normalize_signature_value`: what a rebuild signature makes of a path. */
  function NormalizeValue(v: string): string {
    if v == [] || !LooksAbsolute(v) then v else NormalizePath(v)
  }

  predicate Marked(s: string) { ".project" <= s }

  predicate InProject(v: string, root: Path) {
    v == root || (Under(v, root) && Tail(v, root) != [] && Tail(v, root) != "." && !LooksAbsolute(Tail(v, root)))
  }

  /** Nothing but a path in the project is hashed with the mark of one. */
  predicate Unspelled(v: string, root: Path) { Marked(NormalizeForProject(v, root)) ==> InProject(v, root) }

  /** What a rebuild signature makes of a path, from what the cache key makes of it. */
  function Unmark(s: string, root: Path): string {
    if !Marked(s) then s else NormalizePath(if |s| < 10 then root else root + "/" + s[9..])
  }

  function Unmarker(root: Path): string -> string { s => Unmark(s, root) }

  function Plain(): string -> string { v => NormalizeValue(v) }

  lemma ValueFactors(v: string, root: Path)
    requires Root(root) && Unspelled(v, root)
    ensures Unmark(NormalizeForProject(v, root), root) == NormalizeValue(v)
  {
    hide NormalizePath;
    if InProject(v, root) && v != root {
      var t := Tail(v, root);
      var s := ".project/" + t;
      assert v == root + "/" + t;
      assert LooksAbsolute(v) && PathArg(v, root) == t;
      assert NormalizeForProject(v, root) == s && s[9..] == t && ".project" <= s;
    } else if v != root {
      MarkStarts(PathArg(v, root));
    }
  }

  lemma MarkStarts(arg: string)
    ensures Marked(".project/" + arg) && Marked(".project")
  {
  }

  /** A path spelled like the mark: the cache key takes it for the path in the project, a
      rebuild signature does not, unless that path ends like the mark itself. */
  lemma SpelledCollides(root: Path, t: string)
    requires Root(root) && t != [] && t != "." && !LooksAbsolute(t)
    ensures var v, w := ".project/" + t, root + "/" + t;
            && NormalizeForProject(v, root) == NormalizeForProject(w, root)
            && (NormalizeValue(v) == NormalizeValue(w) <==> NormalizePath(w) == v)
  {
    var v := ".project/" + t;
    assert v[0] == '.' && v[1] == 'p';
    MarkOfProject(root, t, v);
    hide NormalizePath, NormalizeForProject;
  }

  // ----- flags and groups -------------------------------------------------------

  function UnmarkFlag(f: string, root: Path): string {
    if Prefixed(f) then NormalizeFlag(f, Unmarker(root)) else Unmark(f, root)
  }

  function FlagUnmarker(root: Path): string -> string { f => UnmarkFlag(f, root) }

  /** No word of a group is spelled like the mark, and no operand like a flag with a path. */
  predicate Clear(group: seq<string>, expects: bool, root: Path) {
    group == [] ||
    (&& (if expects then Unspelled(group[0], root) && !Prefixed(NormalizeForProject(group[0], root))
         else if Prefixed(group[0]) then Unspelled(Operand(group[0], PrefixOf(group[0], 0)), root)
         else !Marked(group[0]))
     && Clear(group[1..], !expects && IsSplitPathFlag(group[0]), root))
  }

  lemma FlagFactors(f: string, root: Path)
    requires Root(root) && Clear([f], false, root)
    ensures UnmarkFlag(NormalizeFlag(f, Normalizer(root)), root) == NormalizeFlag(f, Plain())
  {
    var i := PrefixOf(f, 0);
    NormalizedByPrefix(f, Normalizer(root), 0);
    NormalizedByPrefix(f, Plain(), 0);
    if i < |PATH_PREFIXES| {
      var v := Operand(f, i);
      var n := PATH_PREFIXES[i] + NormalizeForProject(v, root);
      ValueFactors(v, root);
      PrefixOfAttached(i, NormalizeForProject(v, root), 0);
      NormalizedByPrefix(n, Unmarker(root), 0);
      assert Operand(n, i) == NormalizeForProject(v, root);
    }
  }

  /** The normalised group of a rebuild signature is a function of that of the cache key. */
  lemma {:induction false} GroupFactors(group: seq<string>, expects: bool, root: Path)
    requires Root(root) && Clear(group, expects, root)
    ensures NormalizeGroup(group, expects, Plain())
         == Map(NormalizeGroup(group, expects, Normalizer(root)), FlagUnmarker(root))
  {
    if group != [] {
      var rest := NormalizeGroup(group[1..], !expects && IsSplitPathFlag(group[0]), Normalizer(root));
      GroupFactors(group[1..], !expects && IsSplitPathFlag(group[0]), root);
      assert NormalizeGroup(group, expects, Normalizer(root))[1..] == rest;
      if expects {
        ValueFactors(group[0], root);
      } else {
        FlagFactors(group[0], root);
      }
    }
  }

  // ----- equal keys ---------------------------------------------------------------

  /** The signature a build of the checkout plans with, and stamps. */
  function PlanOf(c: Checkout, digest: seq<Byte> -> string): Path -> string {
    source => digest(PlannedBytes(c.compiler, source, [], Flags.ForSource(c.extra, source), Plain()))
  }

  /** The words of a source's groups are clear, and nothing hashed holds a NUL. */
  ghost predicate Hashable(c: Checkout, source: Path) {
    var groups := HashedGroups(c, source);
    && (forall k :: 0 <= k < 3 ==> Clear(groups[k], false, c.root))
    && CleanStream(Driver(c.compiler, source).0, NormalizedGroups(groups, Normalizer(c.root)))
  }

  /** What the key hashes of a source determines what the build plans it with. */
  lemma ArtifactDeterminesPlan(c: Checkout, d: Checkout, source: Path)
    requires Root(c.root) && c.root == d.root && Hashable(c, source) && Hashable(d, source)
    requires ArtifactBytes(c, source) == ArtifactBytes(d, source)
    ensures PlannedBytes(c.compiler, source, [], Flags.ForSource(c.extra, source), Plain())
         == PlannedBytes(d.compiler, source, [], Flags.ForSource(d.extra, source), Plain())
  {
    var root, g, h := c.root, HashedGroups(c, source), HashedGroups(d, source);
    var id, id' := Driver(c.compiler, source).0, Driver(d.compiler, source).0;
    StreamDecodes(id, NormalizedGroups(g, Normalizer(root)), id', NormalizedGroups(h, Normalizer(root)));
    hide Clear, CleanStream, NormalizeGroup, StreamBytes, Root, RemoveUnflagged, NormalizedGroups, Map, Driver;
    ThreeGroups(g[0], g[1], g[2], Normalizer(root));
    ThreeGroups(h[0], h[1], h[2], Normalizer(root));
    ThreeGroups(g[0], g[1], g[2], Plain());
    ThreeGroups(h[0], h[1], h[2], Plain());
    forall k | 0 <= k < 3 ensures NormalizeGroup(g[k], false, Plain()) == NormalizeGroup(h[k], false, Plain()) {
      GroupFactors(g[k], false, root);
      GroupFactors(h[k], false, root);
      assert NormalizeGroup(g[k], false, Normalizer(root)) == NormalizedGroups(g, Normalizer(root))[k];
      assert NormalizeGroup(h[k], false, Normalizer(root)) == NormalizedGroups(h, Normalizer(root))[k];
    }
    assert g == [g[0], g[1], g[2]] && h == [h[0], h[1], h[2]];
  }

  lemma EntryIsAt(c: Checkout, source: Path, digest: seq<Byte> -> string)
    ensures EntryOf(c, source, digest).path == SourcePath(source, c.root)
  {
  }

  lemma SameEntries(c: Checkout, d: Checkout, sources: seq<Path>, digest: seq<Byte> -> string, i: nat)
    requires c.root == d.root && Apart(sources, c.root) && i < |sources|
    requires SortByPath(EntriesOf(c, sources, digest)) == SortByPath(EntriesOf(d, sources, digest))
    ensures EntryOf(c, sources[i], digest) == EntryOf(d, sources[i], digest)
  {
    var a, b := EntriesOf(c, sources, digest), EntriesOf(d, sources, digest);
    SortPermutes(a);
    SortPermutes(b);
    hide SortByPath, EntryOf;
    assert a[i] in multiset(a);
    assert a[i] in multiset(b);
    var j :| 0 <= j < |b| && b[j] == a[i];
    EntryIsAt(c, sources[i], digest);
    EntryIsAt(d, sources[j], digest);
  }

  /** Equal keys: under one root two checkouts whose keys for one list of sources are equal
      plan every source with the same signature, if no word is spelled like the mark of the
      project and the hash does not collide. */
  lemma KeyDeterminesPlan(s: Setup, c: Checkout, t: Setup, d: Checkout, sources: seq<Path>,
                          digest: seq<Byte> -> string, i: nat)
    requires Root(c.root) && c.root == d.root && Apart(sources, c.root) && Injective(digest) && i < |sources|
    requires CleanSetup(s) && CleanSetup(t)
    requires CleanEntries(EntriesOf(c, sources, digest)) && CleanEntries(EntriesOf(d, sources, digest))
    requires Hashable(c, sources[i]) && Hashable(d, sources[i])
    requires KeyBytes(s, EntriesOf(c, sources, digest)) == KeyBytes(t, EntriesOf(d, sources, digest))
    ensures PlanOf(c, digest)(sources[i]) == PlanOf(d, digest)(sources[i])
  {
    hide KeyBytes, SortByPath, CleanEntries, CleanSetup, Hashable, PlannedBytes, ArtifactBytes, Root, Apart;
    KeyDecodes(s, EntriesOf(c, sources, digest), t, EntriesOf(d, sources, digest));
    SameEntries(c, d, sources, digest, i);
    assert digest(ArtifactBytes(c, sources[i])) == digest(ArtifactBytes(d, sources[i]));
    ArtifactDeterminesPlan(c, d, sources[i]);
  }

  /** Every object of an entry is of a listed source and carries the signature planned for it. */
  ghost predicate StoredBy(pr: W.Project, entry: W.Dir, sources: seq<Path>, plan: Path -> string) {
    forall n: W.Name :: n.ext == "o" && n in entry ==>
      entry[n].content.Object? &&
      exists i :: 0 <= i < |sources| && n == W.ObjectName(pr, sources[i])
                  && entry[n].content.signature == plan(sources[i])
  }

  /** An entry stored by one build vouches for a hydrate by another that plans alike. */
  lemma PlanVouches(pr: W.Project, entry: W.Dir, dir: W.Dir, sources: seq<Path>, stored: Path -> string,
                    plan: Path -> string)
    requires CoreCache.Separate(pr, sources) && StoredBy(pr, entry, sources, stored)
    requires forall i :: 0 <= i < |sources| ==> stored(sources[i]) == plan(sources[i])
    ensures CoreCache.Vouched(pr, entry, dir, sources, plan)
  {
    var copied := CoreCache.CopiedObjects(entry, dir, false, false);
    forall n: W.Name | n.ext == "o" && n in entry && n !in dir
      ensures CoreCache.VouchedFor(pr, entry, dir, sources, plan, n)
    {
      var i :| 0 <= i < |sources| && n == W.ObjectName(pr, sources[i])
               && entry[n].content.signature == stored(sources[i]);
      assert n in copied;
      assert CoreCache.StampOf(pr, sources[i], copied, W.StampName(n));
      forall j | 0 <= j < |sources| && CoreCache.StampOf(pr, sources[j], copied, W.StampName(n))
        ensures plan(sources[j]) == entry[n].content.signature
      {
        assert pr.stem(sources[j]) == pr.stem(sources[i]);
      }
    }
  }

  /** A hydrate under a key equal to the one the entry was stored under is vouched for. */
  lemma KeyVouches(pr: W.Project, entry: W.Dir, dir: W.Dir, s: Setup, c: Checkout, t: Setup, d: Checkout,
                   sources: seq<Path>, digest: seq<Byte> -> string)
    requires CoreCache.Separate(pr, sources) && StoredBy(pr, entry, sources, PlanOf(c, digest))
    requires Root(c.root) && c.root == d.root && Apart(sources, c.root) && Injective(digest)
    requires CleanSetup(s) && CleanSetup(t)
    requires CleanEntries(EntriesOf(c, sources, digest)) && CleanEntries(EntriesOf(d, sources, digest))
    requires forall i :: 0 <= i < |sources| ==> Hashable(c, sources[i]) && Hashable(d, sources[i])
    requires KeyBytes(s, EntriesOf(c, sources, digest)) == KeyBytes(t, EntriesOf(d, sources, digest))
    ensures CoreCache.Vouched(pr, entry, dir, sources, PlanOf(d, digest))
  {
    hide *;
    forall i | 0 <= i < |sources| ensures PlanOf(c, digest)(sources[i]) == PlanOf(d, digest)(sources[i]) {
      KeyDeterminesPlan(s, c, t, d, sources, digest, i);
    }
    PlanVouches(pr, entry, dir, sources, PlanOf(c, digest), PlanOf(d, digest));
  }
}

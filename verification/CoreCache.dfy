// framework_core_cache.rs: storing the core objects in a cache entry and hydrating a
// build directory from it.
module CoreCache {
  import opened Paths
  import opened Workspace
  import Depfile

  class Folder {
    var present: bool
    var files: Dir

    constructor (files: Dir)
      ensures present && this.files == files
    {
      this.present, this.files := true, files;
    }
  }

  predicate IsCoreArtifact(n: Name, includeCmdhash: bool) {
    n.ext == "o" || n.ext == "d" || (includeCmdhash && n.ext == "cmdhash")
  }

  /** The files a copy takes from `src`. */
  function Selected(src: Dir, dst: Dir, overwrite: bool, includeCmdhash: bool): Dir {
    map n | n in src && IsCoreArtifact(n, includeCmdhash) && (overwrite || n !in dst) :: src[n]
  }

  /** The files a copy leaves because `dst` has them. */
  function SkipSet(src: Dir, dst: Dir, overwrite: bool, includeCmdhash: bool): set<Name> {
    set n | n in src && IsCoreArtifact(n, includeCmdhash) && n in dst && !overwrite
  }

  function ObjectsIn(names: set<Name>): set<Name> {
    set n | n in names && n.ext == "o"
  }

  function Merge(src: Dir, dst: Dir, overwrite: bool, includeCmdhash: bool): Dir {
    dst + Selected(src, dst, overwrite, includeCmdhash)
  }

  function CopiedObjects(src: Dir, dst: Dir, overwrite: bool, includeCmdhash: bool): set<Name> {
    ObjectsIn(Selected(src, dst, overwrite, includeCmdhash).Keys)
  }

  lemma SelectOneMore(seen: Dir, dst: Dir, n: Name, f: File<Artifact>, overwrite: bool, inc: bool)
    requires n !in seen
    ensures Selected(seen[n := f], dst, overwrite, inc) ==
            if IsCoreArtifact(n, inc) && (overwrite || n !in dst)
            then Selected(seen, dst, overwrite, inc)[n := f] else Selected(seen, dst, overwrite, inc)
    ensures n !in Selected(seen, dst, overwrite, inc)
  {
  }

  lemma SkipOneMore(seen: Dir, dst: Dir, n: Name, f: File<Artifact>, overwrite: bool, inc: bool)
    requires n !in seen
    ensures SkipSet(seen[n := f], dst, overwrite, inc) ==
            if IsCoreArtifact(n, inc) && n in dst && !overwrite
            then SkipSet(seen, dst, overwrite, inc) + {n} else SkipSet(seen, dst, overwrite, inc)
    ensures n !in SkipSet(seen, dst, overwrite, inc)
  {
  }

  lemma AddToUnion<K, V>(before: map<K, V>, taken: map<K, V>, n: K, f: V)
    requires n !in taken
    ensures (before + taken)[n := f] == before + taken[n := f]
  {
  }

  lemma AddToSize<K, V>(taken: map<K, V>, n: K, f: V)
    requires n !in taken
    ensures |taken[n := f]| == |taken| + 1
    ensures taken[n := f].Keys == taken.Keys + {n}
  {
    assert taken[n := f].Keys == taken.Keys + {n};
  }

  lemma AddObject(names: set<Name>, n: Name)
    ensures ObjectsIn(names + {n}) == if n.ext == "o" then ObjectsIn(names) + {n} else ObjectsIn(names)
  {
  }

  /** What a copy has done once it has visited the entries in `seen`. */
  ghost predicate Progress(seen: Dir, before: Dir, files: Dir, copied: nat, skipped: nat, objects: set<Name>,
                           overwrite: bool, inc: bool)
  {
    && files == Merge(seen, before, overwrite, inc)
    && copied == |Selected(seen, before, overwrite, inc)|
    && skipped == |SkipSet(seen, before, overwrite, inc)|
    && objects == CopiedObjects(seen, before, overwrite, inc)
  }

  lemma ProgressStep(seen: Dir, before: Dir, files: Dir, copied: nat, skipped: nat, objects: set<Name>,
                     overwrite: bool, inc: bool, n: Name, f: File<Artifact>)
    requires Progress(seen, before, files, copied, skipped, objects, overwrite, inc) && n !in seen
    ensures
      if !IsCoreArtifact(n, inc) then Progress(seen[n := f], before, files, copied, skipped, objects, overwrite, inc)
      else if n in files && !overwrite then
        Progress(seen[n := f], before, files, copied, skipped + 1, objects, overwrite, inc)
      else
        Progress(seen[n := f], before, files[n := f], copied + 1, skipped,
                 if n.ext == "o" then objects + {n} else objects, overwrite, inc)
  {
    SelectOneMore(seen, before, n, f, overwrite, inc);
    SkipOneMore(seen, before, n, f, overwrite, inc);
    var taken := Selected(seen, before, overwrite, inc);
    AddToUnion(before, taken, n, f);
    AddToSize(taken, n, f);
    AddObject(taken.Keys, n);
  }

  /** The entries split into those visited and those to do. */
  ghost predicate Visited(all: Dir, todo: set<Name>, seen: Dir) {
    && (forall n :: n in todo ==> n in all && n !in seen)
    && (forall n :: n in all ==> n in todo || n in seen)
    && (forall n :: n in seen ==> n in all && seen[n] == all[n])
  }

  lemma VisitOneMore(all: Dir, todo: set<Name>, seen: Dir, n: Name)
    requires Visited(all, todo, seen) && n in todo
    ensures n in all && n !in seen && Visited(all, todo - {n}, seen[n := all[n]])
  {
  }

  lemma VisitedAll(all: Dir, seen: Dir)
    requires Visited(all, {}, seen)
    ensures seen == all
  {
  }

  /** `copy_artifacts`, visiting the directory entries in any order. */
  method CopyArtifacts(src: Folder, dst: Folder, overwrite: bool, includeCmdhash: bool)
    returns (copied: nat, skipped: nat, copiedObjects: set<Name>)
    requires src != dst && src.present
    modifies dst
    ensures dst.present
    ensures Progress(src.files, old(dst.files), dst.files, copied, skipped, copiedObjects, overwrite, includeCmdhash)
  {
    dst.present := true;
    copied, skipped, copiedObjects := 0, 0, {};
    ghost var before := dst.files;
    ghost var seen: Dir := map[];
    var todo := src.files.Keys;
    while todo != {}
      invariant Visited(src.files, todo, seen)
      invariant dst.present
      invariant Progress(seen, before, dst.files, copied, skipped, copiedObjects, overwrite, includeCmdhash)
      decreases todo
    {
      var n :| n in todo;
      VisitOneMore(src.files, todo, seen, n);
      todo := todo - {n};
      var file := src.files[n];
      ProgressStep(seen, before, dst.files, copied, skipped, copiedObjects, overwrite, includeCmdhash, n, file);
      seen := seen[n := file];
      if IsCoreArtifact(n, includeCmdhash) {
        if n in dst.files && !overwrite {
          skipped := skipped + 1;
        } else {
          dst.files := dst.files[n := file];
          if n.ext == "o" {
            copiedObjects := copiedObjects + {n};
          }
          copied := copied + 1;
        }
      }
    }
    VisitedAll(src.files, seen);
  }

  /** The stamps written for the sources whose object was copied. */
  function Restamp(pr: Project, dir: Dir, sources: seq<Path>, copied: set<Name>,
                   signature: Path -> string, now: Time): Dir
    decreases |sources|
  {
    if sources == [] then dir
    else
      var o := ObjectName(pr, sources[0]);
      Restamp(pr, if o in copied then dir[StampName(o) := File(Blob(signature(sources[0])), now)] else dir,
              sources[1..], copied, signature, now)
  }

  function RestampCount(pr: Project, sources: seq<Path>, copied: set<Name>): nat {
    if sources == [] then 0
    else (if ObjectName(pr, sources[0]) in copied then 1 else 0) + RestampCount(pr, sources[1..], copied)
  }

  /** The loop of `refresh_command_hashes`. */
  method RefreshCommandHashes(folder: Folder, pr: Project, sources: seq<Path>, signature: Path -> string,
                              copied: set<Name>, now: Time) returns (refreshed: nat)
    modifies folder
    ensures folder.present == old(folder.present)
    ensures folder.files == Restamp(pr, old(folder.files), sources, copied, signature, now)
    ensures refreshed == RestampCount(pr, sources, copied)
  {
    refreshed := 0;
    ghost var final := Restamp(pr, folder.files, sources, copied, signature, now);
    var i := 0;
    while i < |sources|
      invariant 0 <= i <= |sources|
      invariant folder.present == old(folder.present)
      invariant Restamp(pr, folder.files, sources[i..], copied, signature, now) == final
      invariant refreshed + RestampCount(pr, sources[i..], copied) == RestampCount(pr, sources, copied)
    {
      assert sources[i..][1..] == sources[i + 1..];
      var o := ObjectName(pr, sources[i]);
      if o in copied {
        folder.files := folder.files[StampName(o) := File(Blob(signature(sources[i])), now)];
        refreshed := refreshed + 1;
      }
      i := i + 1;
    }
  }

  function Hydrated(pr: Project, entry: Dir, dir: Dir, sources: seq<Path>, signature: Path -> string, now: Time): Dir {
    Restamp(pr, Merge(entry, dir, false, false), sources, CopiedObjects(entry, dir, false, false), signature, now)
  }

  /** `hydrate`: copy what is missing, never the stamps, then stamp what was copied. */
  method Hydrate(entry: Folder, dir: Folder, pr: Project, sources: seq<Path>, signature: Path -> string, now: Time)
    returns (copied: nat, skipped: nat)
    requires entry != dir
    modifies dir
    ensures old(entry.present) ==> dir.files == Hydrated(pr, entry.files, old(dir.files), sources, signature, now)
    ensures !old(entry.present) ==> dir.files == old(dir.files) && copied == 0 && skipped == 0
    ensures old(entry.present) ==>
              && copied == |Selected(entry.files, old(dir.files), false, false)|
                           + RestampCount(pr, sources, CopiedObjects(entry.files, old(dir.files), false, false))
              && skipped == |SkipSet(entry.files, old(dir.files), false, false)|
  {
    if !entry.present {
      return 0, 0;
    }
    var objects;
    copied, skipped, objects := CopyArtifacts(entry, dir, false, false);
    var refreshed := RefreshCommandHashes(dir, pr, sources, signature, objects, now);
    copied := copied + refreshed;
  }

  /** `store`: copy objects, dependency files and stamps over what the entry held. */
  method Store(entry: Folder, dir: Folder) returns (copied: nat, skipped: nat)
    requires entry != dir
    modifies entry
    ensures dir.present ==> entry.present && entry.files == Merge(dir.files, old(entry.files), true, true)
    ensures !dir.present ==> entry.present == old(entry.present) && entry.files == old(entry.files)
    ensures copied == if dir.present then |Selected(dir.files, old(entry.files), true, true)| else 0
    ensures skipped == 0
  {
    if !dir.present {
      return 0, 0;
    }
    var objects;
    copied, skipped, objects := CopyArtifacts(dir, entry, true, true);
    assert SkipSet(dir.files, old(entry.files), true, true) == {};
  }

  // ----- properties -----------------------------------------------------------

  /** A stamp name that hydration writes: that of a source whose object was just copied. */
  predicate Stamps(pr: Project, sources: seq<Path>, copied: set<Name>, n: Name) {
    exists i :: 0 <= i < |sources| && StampOf(pr, sources[i], copied, n)
  }

  predicate StampOf(pr: Project, source: Path, copied: set<Name>, n: Name) {
    StampName(ObjectName(pr, source)) == n && ObjectName(pr, source) in copied
  }

  predicate Separate(pr: Project, sources: seq<Path>) {
    forall i, j :: 0 <= i < |sources| && 0 <= j < |sources| && pr.stem(sources[i]) == pr.stem(sources[j]) ==>
      sources[i] == sources[j]
  }

  /** Restamping touches the stamps of copied objects only; the last source of that name decides. */
  lemma {:induction false} RestampExact(pr: Project, dir: Dir, sources: seq<Path>, copied: set<Name>,
                                        signature: Path -> string, now: Time, n: Name)
    requires Separate(pr, sources)
    ensures var r := Restamp(pr, dir, sources, copied, signature, now);
            && (!Stamps(pr, sources, copied, n) ==> (n in r <==> n in dir) && (n in dir ==> r[n] == dir[n]))
            && forall i :: 0 <= i < |sources| && StampOf(pr, sources[i], copied, n) ==>
                 n in r && r[n] == File(Blob(signature(sources[i])), now)
    decreases |sources|
  {
    if sources != [] {
      var o := ObjectName(pr, sources[0]);
      var dir' := if o in copied then dir[StampName(o) := File(Blob(signature(sources[0])), now)] else dir;
      RestampExact(pr, dir', sources[1..], copied, signature, now, n);
      assert forall i :: 1 <= i < |sources| ==> sources[i] == sources[1..][i - 1];
      if j :| 0 <= j < |sources[1..]| && StampOf(pr, sources[1..][j], copied, n) {
        assert StampOf(pr, sources[j + 1], copied, n);
      }
    }
  }

  /** Hydration writes a file that is already there only when it is the stamp of an object
      that was missing and is now copied for one of the sources. */
  lemma HydrateKeepsFiles(pr: Project, entry: Dir, dir: Dir, sources: seq<Path>, signature: Path -> string,
                          now: Time, n: Name)
    requires Separate(pr, sources) && n in dir
    ensures var h := Hydrated(pr, entry, dir, sources, signature, now);
            && n in h
            && if Stamps(pr, sources, CopiedObjects(entry, dir, false, false), n)
               then h[n].mtime == now && h[n].content.Blob?
               else h[n] == dir[n]
  {
    RestampExact(pr, Merge(entry, dir, false, false), sources, CopiedObjects(entry, dir, false, false),
                 signature, now, n);
  }

  /** What hydration brings: of the files that were missing, the entry's objects and dependency
      files, and a stamp for each source whose object was copied; never a stamp of the entry. */
  lemma HydrateBrings(pr: Project, entry: Dir, dir: Dir, sources: seq<Path>, signature: Path -> string,
                      now: Time, n: Name)
    requires Separate(pr, sources) && n !in dir
    ensures var h := Hydrated(pr, entry, dir, sources, signature, now);
            && ((n.ext == "o" || n.ext == "d") ==> (n in h <==> n in entry) && (n in h ==> h[n] == entry[n]))
            && (n.ext != "o" && n.ext != "d" ==>
                  (n in h <==> exists i :: 0 <= i < |sources| && n == Name(pr.stem(sources[i]), "cmdhash")
                                           && Name(pr.stem(sources[i]), "o") in entry
                                           && Name(pr.stem(sources[i]), "o") !in dir))
  {
    var copied := CopiedObjects(entry, dir, false, false);
    RestampExact(pr, Merge(entry, dir, false, false), sources, copied, signature, now, n);
    forall i | 0 <= i < |sources|
      ensures StampOf(pr, sources[i], copied, n) <==>
              && n == Name(pr.stem(sources[i]), "cmdhash")
              && Name(pr.stem(sources[i]), "o") in entry && Name(pr.stem(sources[i]), "o") !in dir
    {
    }
  }

  /** What storing takes: objects, dependency files and stamps, over what the entry held. */
  lemma StoreTakes(dir: Dir, entry: Dir, n: Name)
    ensures var e := Merge(dir, entry, true, true);
            if n in dir && (n.ext == "o" || n.ext == "d" || n.ext == "cmdhash") then n in e && e[n] == dir[n]
            else (n in e <==> n in entry) && (n in e ==> e[n] == entry[n])
  {
  }

  /** The count of restamped sources: one for each whose object was copied. */
  lemma {:induction false} RestampCounts(pr: Project, sources: seq<Path>, copied: set<Name>, last: Path)
    ensures RestampCount(pr, [], copied) == 0
    ensures RestampCount(pr, sources + [last], copied)
         == RestampCount(pr, sources, copied) + (if Name(pr.stem(last), "o") in copied then 1 else 0)
    decreases |sources|
  {
    if sources == [] {
      assert sources + [last] == [last] && [last][1..] == [];
    } else {
      assert (sources + [last])[1..] == sources[1..] + [last];
      RestampCounts(pr, sources[1..], copied, last);
    }
  }

  /** A second hydration finds everything in place: it copies nothing, stamps nothing and
      changes nothing. */
  lemma SecondHydrateIsIdle(pr: Project, entry: Dir, dir: Dir, sources: seq<Path>, signature: Path -> string,
                            now: Time, later: Time)
    requires Separate(pr, sources)
    ensures var h := Hydrated(pr, entry, dir, sources, signature, now);
            && Selected(entry, h, false, false) == map[]
            && RestampCount(pr, sources, CopiedObjects(entry, h, false, false)) == 0
            && Hydrated(pr, entry, h, sources, signature, later) == h
  {
    var copied := CopiedObjects(entry, dir, false, false);
    var h := Hydrated(pr, entry, dir, sources, signature, now);
    forall n | n in entry && IsCoreArtifact(n, false)
      ensures n in h
    {
      RestampExact(pr, Merge(entry, dir, false, false), sources, copied, signature, now, n);
    }
    assert Selected(entry, h, false, false) == map[];
    assert CopiedObjects(entry, h, false, false) == {};
    assert Merge(entry, h, false, false) == h;
    NothingToStamp(pr, h, sources, signature, later);
  }

  lemma {:induction false} NothingToStamp(pr: Project, dir: Dir, sources: seq<Path>,
                                         signature: Path -> string, now: Time)
    ensures Restamp(pr, dir, sources, {}, signature, now) == dir
    ensures RestampCount(pr, sources, {}) == 0
  {
    if sources != [] { NothingToStamp(pr, dir, sources[1..], signature, now); }
  }

  /** What a fresh directory holds after storing `dir` over `old` and hydrating. */
  function Returned(pr: Project, dir: Dir, leftover: Dir, sources: seq<Path>, signature: Path -> string,
                    now: Time): Dir
  {
    Hydrated(pr, Merge(dir, leftover, true, true), map[], sources, signature, now)
  }

  lemma ReturnedFiles(pr: Project, dir: Dir, leftover: Dir, sources: seq<Path>, signature: Path -> string,
                      now: Time, i: nat)
    requires Separate(pr, sources) && i < |sources| && ObjectName(pr, sources[i]) in dir
    ensures var r := Returned(pr, dir, leftover, sources, signature, now);
            var o := ObjectName(pr, sources[i]);
            var d := DepfileName(o);
            && o in r && r[o] == dir[o]
            && StampName(o) in r && r[StampName(o)] == File(Blob(signature(sources[i])), now)
            && (d in r <==> d in dir || d in leftover)
            && (d in r ==> r[d] == if d in dir then dir[d] else leftover[d])
  {
    var entry := Merge(dir, leftover, true, true);
    var none: Dir := map[];
    var copied := CopiedObjects(entry, none, false, false);
    var o := ObjectName(pr, sources[i]);
    assert o in copied;
    var base := Merge(entry, none, false, false);
    RestampExact(pr, base, sources, copied, signature, now, o);
    RestampExact(pr, base, sources, copied, signature, now, StampName(o));
    RestampExact(pr, base, sources, copied, signature, now, DepfileName(o));
  }

  /** The verdict a dependency file alone gives on an object of time `t`. */
  predicate DepfileObjects(pr: Project, tree: Tree, f: File<Artifact>, t: Time) {
    !f.content.Blob? ||
    var newer := NewerPrerequisite(Depfile.Parse(f.content.text), tree, t, pr.cwd);
    newer.None? || newer.value
  }

  /** The cache round trip: a source that was up to date when its directory was stored is up
      to date after wiping and hydrating, under whatever signature the hydrating build uses,
      except exactly when the directory had no dependency file for it and the entry still
      held an older one that objects. */
  lemma RoundTrip(pr: Project, tree: Tree, dir: Dir, leftover: Dir, sources: seq<Path>,
                  stored: Path -> string, signature: Path -> string, now: Time, i: nat)
    requires Separate(pr, sources) && i < |sources|
    requires !NeedsRebuild(pr, World(tree, dir), sources[i], ObjectName(pr, sources[i]), Some(stored(sources[i])))
    ensures var o := ObjectName(pr, sources[i]);
            NeedsRebuild(pr, World(tree, Returned(pr, dir, leftover, sources, signature, now)),
                         sources[i], o, Some(signature(sources[i])))
            <==> DepfileName(o) !in dir && DepfileName(o) in leftover
                   && DepfileObjects(pr, tree, leftover[DepfileName(o)], dir[o].mtime)
  {
    ReturnedFiles(pr, dir, leftover, sources, signature, now, i);
  }

  // ----- the two failing cases at one input -----------------------------------

  /** A stamp left without its object is overwritten, though it was there. */
  lemma LoneStampIsOverwritten(sig: string, other: string)
    requires sig != other
    ensures var pr, n := ProbeProject(), ObjectName(ProbeProject(), "/c");
            var entry: Dir := map[n := File(Object(sig, "/c", PROBE_LOG), 5)];
            var dir: Dir := map[StampName(n) := File(Blob(other), 3)];
            var h := Hydrated(pr, entry, dir, ["/c"], s => sig, 7);
            StampName(n) in h && h[StampName(n)] == File(Blob(sig), 7) && h[StampName(n)] != dir[StampName(n)]
  {
    var pr, n := ProbeProject(), ObjectName(ProbeProject(), "/c");
    var entry: Dir := map[n := File(Object(sig, "/c", PROBE_LOG), 5)];
    var dir: Dir := map[StampName(n) := File(Blob(other), 3)];
    var copied := CopiedObjects(entry, dir, false, false);
    assert n in copied && StampOf(pr, ["/c"][0], copied, StampName(n));
    RestampExact(pr, Merge(entry, dir, false, false), ["/c"], copied, s => sig, 7, StampName(n));
  }

  /** An object stored without its dependency file over an entry that has an older one: the
      planner asks again for a source that was up to date. */
  lemma LeftoverDepfileObjects(sig: string)
    ensures var pr, n := ProbeProject(), ObjectName(ProbeProject(), "/c");
            var dir: Dir := map[n := File(Object(sig, "/c", PROBE_LOG), 5), StampName(n) := File(Blob(sig), 5)];
            var leftover: Dir := map[DepfileName(n) := File(Blob(DepfileText(pr, "/c", FULL_LOG)), 2)];
            && !NeedsRebuild(pr, World(PROBE_TREE, dir), "/c", n, Some(sig))
            && NeedsRebuild(pr, World(PROBE_TREE, Returned(pr, dir, leftover, ["/c"], s => sig, 7)), "/c", n, Some(sig))
  {
    var pr, n := ProbeProject(), ObjectName(ProbeProject(), "/c");
    var dir: Dir := map[n := File(Object(sig, "/c", PROBE_LOG), 5), StampName(n) := File(Blob(sig), 5)];
    var leftover: Dir := map[DepfileName(n) := File(Blob(DepfileText(pr, "/c", FULL_LOG)), 2)];
    OldDepfileObjects(sig);
    hide DepfileText, NewerPrerequisite, Depfile.Parse, DepfileObjects;
    RoundTrip(pr, PROBE_TREE, dir, leftover, ["/c"], s => sig, s => sig, 7, 0);
  }

  lemma OldDepfileObjects(sig: string)
    ensures DepfileObjects(ProbeProject(), PROBE_TREE, File(Blob(DepfileText(ProbeProject(), "/c", FULL_LOG)), 2), 5)
  {
    var pr := ProbeProject();
    FullProbeRuns(sig);
    ProbeRuns(sig);
    assert "/h" in FilesRead(FULL_LOG) && "/h" !in PROBE_TREE;
    hide DepfileText, Depfile.Parse, FilesRead;
    DepfileListsFilesRead(pr, "/c", FULL_LOG);
    NoneNewer(Depfile.Parse(DepfileText(pr, "/c", FULL_LOG)), FilesRead(FULL_LOG), PROBE_TREE, 5, None);
  }

  // ----- what storing and hydrating keep --------------------------------------

  ghost predicate AllRecorded(pr: Project, tree: Tree, dir: Dir) {
    forall n :: n in dir && n.ext == "o" ==> Recorded(pr, tree, dir, n)
  }

  /** With `top` laid over `bottom`, an object comes from one and its dependency file from the
      other. */
  predicate Torn(top: Dir, bottom: Dir, n: Name) {
    n.ext == "o" &&
    if n in top then DepfileName(n) !in top && DepfileName(n) in bottom
    else n in bottom && DepfileName(n) in top
  }

  /** Every dependency file that comes to lie beside another's object is that object's all
      the same. */
  ghost predicate Pairs(pr: Project, top: Dir, bottom: Dir) {
    forall n :: Torn(top, bottom, n) ==>
      var o := (bottom + top)[n].content;
      o.Object? && (bottom + top)[DepfileName(n)].content == Blob(DepfileText(pr, o.source, o.log))
  }

  /** The same objects and dependency files. */
  predicate SameArtifact(n: Name, a: Dir, b: Dir) {
    n.ext in {"o", "d"} ==> (n in a <==> n in b) && (n in a ==> a[n] == b[n])
  }

  /** Laying one sound directory over another gives a sound one exactly when they pair up. */
  lemma MergeExact(pr: Project, tree: Tree, top: Dir, bottom: Dir, merged: Dir)
    requires AllRecorded(pr, tree, top) && AllRecorded(pr, tree, bottom)
    requires forall n :: SameArtifact(n, merged, bottom + top)
    ensures AllRecorded(pr, tree, merged) <==> Pairs(pr, top, bottom)
  {
    hide DepfileText, NotOverwritten, Trace, Listable, FilesRead;
    forall n | n in merged && n.ext == "o"
      ensures Recorded(pr, tree, merged, n) <==>
              (Torn(top, bottom, n) ==>
                 var o := (bottom + top)[n].content;
                 o.Object? && (bottom + top)[DepfileName(n)].content == Blob(DepfileText(pr, o.source, o.log)))
    {
      assert SameArtifact(n, merged, bottom + top) && SameArtifact(DepfileName(n), merged, bottom + top);
      if n in top {
        assert Recorded(pr, tree, top, n);
      } else {
        assert Recorded(pr, tree, bottom, n);
      }
    }
    forall n | Torn(top, bottom, n) ensures n in merged && n.ext == "o" {
      assert SameArtifact(n, merged, bottom + top);
    }
  }

  lemma StoreMerges(dir: Dir, entry: Dir, n: Name)
    ensures SameArtifact(n, Merge(dir, entry, true, true), entry + dir)
  {
  }

  lemma HydrateMerges(pr: Project, entry: Dir, dir: Dir, sources: seq<Path>, signature: Path -> string,
                      now: Time, n: Name)
    requires Separate(pr, sources)
    ensures SameArtifact(n, Hydrated(pr, entry, dir, sources, signature, now), entry + dir)
  {
    RestampExact(pr, Merge(entry, dir, false, false), sources, CopiedObjects(entry, dir, false, false),
                 signature, now, n);
  }

  /** Storing keeps the entry sound exactly when the directory pairs up with it. */
  lemma StoreExact(pr: Project, tree: Tree, dir: Dir, entry: Dir)
    requires AllRecorded(pr, tree, dir) && AllRecorded(pr, tree, entry)
    ensures AllRecorded(pr, tree, Merge(dir, entry, true, true)) <==> Pairs(pr, dir, entry)
  {
    forall n ensures SameArtifact(n, Merge(dir, entry, true, true), entry + dir) {
      StoreMerges(dir, entry, n);
    }
    MergeExact(pr, tree, dir, entry, Merge(dir, entry, true, true));
  }

  /** The stamp an object gets, or finds, is its own: the one written for its source if
      there is one, else a stamp that was left there. */
  predicate VouchedFor(pr: Project, entry: Dir, dir: Dir, sources: seq<Path>, signature: Path -> string, n: Name)
    requires n in entry
  {
    var copied := CopiedObjects(entry, dir, false, false);
    entry[n].content.Object? &&
    if Stamps(pr, sources, copied, StampName(n)) then
      forall i :: 0 <= i < |sources| && StampOf(pr, sources[i], copied, StampName(n)) ==>
        signature(sources[i]) == entry[n].content.signature
    else StampName(n) in dir ==> dir[StampName(n)].content == Blob(entry[n].content.signature)
  }

  ghost predicate Vouched(pr: Project, entry: Dir, dir: Dir, sources: seq<Path>, signature: Path -> string) {
    forall n: Name :: n.ext == "o" && n in entry && n !in dir ==> VouchedFor(pr, entry, dir, sources, signature, n)
  }

  lemma StampAfter(pr: Project, entry: Dir, dir: Dir, sources: seq<Path>, signature: Path -> string, now: Time, n: Name)
    requires Separate(pr, sources) && n.ext == "o" && (n in dir || (n in entry && entry[n].content.Object?))
    requires n in dir ==> dir[n].content.Object?
    ensures var h := Hydrated(pr, entry, dir, sources, signature, now);
            var sig := if n in dir then dir[n].content.signature else entry[n].content.signature;
            (StampName(n) in h ==> h[StampName(n)].content == Blob(sig)) <==>
            if n in dir then StampName(n) in dir ==> dir[StampName(n)].content == Blob(sig)
            else VouchedFor(pr, entry, dir, sources, signature, n)
  {
    var copied := CopiedObjects(entry, dir, false, false);
    RestampExact(pr, Merge(entry, dir, false, false), sources, copied, signature, now, StampName(n));
    if i :| 0 <= i < |sources| && StampOf(pr, sources[i], copied, StampName(n)) {
      assert ObjectName(pr, sources[i]) == n;
    }
  }

  /** Hydrating keeps the workspace invariant exactly when the directory pairs up with the
      entry and every object that is copied is vouched for. */
  lemma HydrateExact(pr: Project, w: World, entry: Dir, sources: seq<Path>, signature: Path -> string, now: Time)
    requires Inv(pr, w) && AllRecorded(pr, w.tree, entry) && Separate(pr, sources)
    ensures Inv(pr, w.(dir := Hydrated(pr, entry, w.dir, sources, signature, now)))
            <==> Pairs(pr, w.dir, entry) && Vouched(pr, entry, w.dir, sources, signature)
  {
    var h := Hydrated(pr, entry, w.dir, sources, signature, now);
    var w' := w.(dir := h);
    forall n ensures SameArtifact(n, h, entry + w.dir) {
      HydrateMerges(pr, entry, w.dir, sources, signature, now, n);
    }
    assert AllRecorded(pr, w.tree, w.dir) by {
      forall n | n in w.dir && n.ext == "o" ensures Recorded(pr, w.tree, w.dir, n) { assert Faithful(pr, w, n); }
    }
    MergeExact(pr, w.tree, w.dir, entry, h);
    hide Pairs, Hydrated, Recorded, VouchedFor, Faithful, SameArtifact;
    forall n | n in h && n.ext == "o"
      ensures n !in w.dir ==> n in entry
      ensures Faithful(pr, w', n) <==>
              Recorded(pr, w.tree, h, n) && (n !in w.dir ==> VouchedFor(pr, entry, w.dir, sources, signature, n))
    {
      StampOfHydrated(pr, w, entry, sources, signature, now, n);
    }
    if Inv(pr, w') {
      forall n | n in h && n.ext == "o" ensures Recorded(pr, w.tree, h, n) { assert Faithful(pr, w', n); }
      forall n: Name | n.ext == "o" && n in entry && n !in w.dir
        ensures VouchedFor(pr, entry, w.dir, sources, signature, n)
      {
        CopiedIsThere(pr, entry, w.dir, sources, signature, now, n);
        assert Faithful(pr, w', n);
      }
    } else {
      var n :| n in h && n.ext == "o" && !Faithful(pr, w', n);
      assert !Recorded(pr, w.tree, h, n) || !VouchedFor(pr, entry, w.dir, sources, signature, n);
    }
  }

  lemma CopiedIsThere(pr: Project, entry: Dir, dir: Dir, sources: seq<Path>, signature: Path -> string,
                      now: Time, n: Name)
    requires Separate(pr, sources) && n.ext == "o" && n in entry
    ensures n in Hydrated(pr, entry, dir, sources, signature, now)
  {
    HydrateMerges(pr, entry, dir, sources, signature, now, n);
  }

  lemma StampOfHydrated(pr: Project, w: World, entry: Dir, sources: seq<Path>, signature: Path -> string,
                        now: Time, n: Name)
    requires Inv(pr, w) && AllRecorded(pr, w.tree, entry) && Separate(pr, sources) && n.ext == "o"
    requires n in Hydrated(pr, entry, w.dir, sources, signature, now)
    ensures var h := Hydrated(pr, entry, w.dir, sources, signature, now);
            && (n !in w.dir ==> n in entry)
            && (Faithful(pr, w.(dir := h), n) <==>
                  Recorded(pr, w.tree, h, n) && (n !in w.dir ==> VouchedFor(pr, entry, w.dir, sources, signature, n)))
  {
    hide DepfileText, NotOverwritten, Trace, Listable, FilesRead;
    HydrateMerges(pr, entry, w.dir, sources, signature, now, n);
    if n in w.dir {
      assert Faithful(pr, w, n);
    } else {
      assert Recorded(pr, w.tree, entry, n);
    }
    StampAfter(pr, entry, w.dir, sources, signature, now, n);
  }

  lemma SeparateSources(pr: Project, sources: seq<Path>)
    requires WellNamed(pr) && forall i :: 0 <= i < |sources| ==> sources[i] in pr.sources
    ensures Separate(pr, sources)
  {
  }

  /** Store, wipe and hydrate: the workspace that comes back is sound to reuse exactly when
      each object is vouched for by the signature the hydrating build computes. */
  lemma HydratedIsSound(pr: Project, tree: Tree, dir: Dir, leftover: Dir, sources: seq<Path>,
                        signature: Path -> string, now: Time)
    requires WellNamed(pr) && Inv(pr, World(tree, dir))
    requires AllRecorded(pr, tree, leftover) && Pairs(pr, dir, leftover)
    requires forall i :: 0 <= i < |sources| ==> sources[i] in pr.sources
    ensures Inv(pr, World(tree, Returned(pr, dir, leftover, sources, signature, now)))
            <==> Vouched(pr, Merge(dir, leftover, true, true), map[], sources, signature)
  {
    var entry := Merge(dir, leftover, true, true);
    SeparateSources(pr, sources);
    forall n | n in dir && n.ext == "o" ensures Recorded(pr, tree, dir, n) {
      assert Faithful(pr, World(tree, dir), n);
    }
    StoreExact(pr, tree, dir, leftover);
    NothingTorn(pr, entry);
    HydrateExact(pr, World(tree, map[]), entry, sources, signature, now);
  }

  lemma NothingTorn(pr: Project, entry: Dir)
    ensures Pairs(pr, map[], entry)
  {
  }
}
